# Verification of the service registration center

The registry keeps a namespace tree of persistent and ephemeral nodes. A client that connects gets
a session; a session whose heartbeats stay away for too long is ended, and its ephemeral nodes go
with it. Underneath sits a reactor: an event loop that other threads hand functors to, byte
buffers, and connections that send what the kernel does not take at once later.

`dafny verify dfyconfig.toml` checks the project. The modules:

| file | what it models |
|---|---|
| Log.dfy, Option.dfy | sequence and option helpers |
| Paths.dfy | how a path string is cut into components |
| NamespaceSpec.dfy | the tree as clients see it: a prefix-closed map from component lists to contents |
| Arena.dfy | the allocated nodes with owning child links and weak parent links; what freeing a subtree does |
| Services.dfy | the service itself: handlers, session index, destructor cascade, both removals |
| ServiceClients.dfy | what clients of the service can rely on from one request to the next |
| IndexedHeap.dfy | the array heap with its id-to-position map, for both orders |
| HeapTimer.dfy | the clock and the expiry loop of the timer heap |
| Protocol.dfy | connects, heartbeats, ticks and requests as events of a log, on values |
| ProtocolTheorems.dfy | what holds in every run of that protocol |
| ServerHistory.dfy | registrations, deadlines and tree contents told from the log alone |
| SessionManager.dfy | the session table |
| SRCServer.dfy | the server object over both heaps, the session table and the tree |
| EventLoop.dfy | the functor queue and the wakeup eventfd, as atomic steps of all threads |
| Buffer.dfy, TcpConnection.dfy | the byte buffer, and sending and shutting down a connection |

## How the parts fit together

`Services.Valid` says that the allocated nodes form a tree below the dummy node and that the index
lists every live session node. Each handler keeps it and does to the client view exactly what the
specification function of NamespaceSpec says. The index-driven removal and the recursive scan are
both proved equal to one pruning of the arena, hence to each other, in every valid state.

The protocol is a log of events; the state is a function of the log. `SRCServer.Valid` says that
the server's heaps, session table and tree are in the state that its log leads to, and every
method appends the event it stands for. ServerHistory answers from the log alone who is registered,
when a timer was last set and what is stored at a place, and proves that the state is just that
(`ServerHistory.StateIs`, and `ServerIsTold` on the server's own data). So a lemma about runs is a
statement about every state the server object can get into; `SilentSessionLeavesServer` draws the last conclusion from the
protocol down to the allocated nodes.

Times are whole nanoseconds, the resolution of the clock; `T` is the timeout in nanoseconds and `g`
the distance between ticks, measured from the start of one to the end of the next. One missed
heartbeat takes at least the shortest period, `T − 1 ms + 1 ns`, and at most the longest period,
`T + g − 1 ms`; for timeouts that are not positive these are 0 and `g`. A session is let live for at
least `limit` shortest periods (`Params.Least`) and at most `limit` longest ones (`Params.Most`); a
limit that is not positive lets the next tick end it, which makes these 0 and `g`.

## Findings

- The expiry test truncates to whole milliseconds (src/HeapTimer.cpp:55), so a timer may fire up to
  one millisecond, less one nanosecond, early. That a session is let live for `limit·T` holds only
  for timeouts that are not positive (`FullPeriodsIff`); the exact bound is `limit` shortest periods,
  for every timeout and limit (`LivesAtLeastIff`), and is attained for every session
  (`EarliestDeath`).
- The server does not check the session id of a create request (src/SRCServer.cpp:122-125). A session
  node whose session is not registered outlives every tick, until it is deleted by request or a tick
  removes a node above it (`OrphansOutliveTicks`); a session's nodes have a registered owner at all times
  exactly in the runs in which it gets none while unregistered (`OwnerStaysRegisteredIff`).
- A one-component path is refused by delete with "delete the root node is not allowed"
  (src/Services.cpp:282-287) even when it names another child of the dummy node, which create does
  allow (`TopLevelNodeStays`). No delete request removes such a node (`DeleteSparesTopLevel`);
  deleting undoes creating exactly for longer paths (`CreateThenDelete`).
- The session index keeps its entries when a session ends (src/Services.cpp:46-50); they stay as
  expired pointers, which `HitStep` shows to be harmless (`Services.RemoveEphemeral` states the
  index afterwards).
- `loop()` resets m_quit (src/tcp/EventLoop.cpp:66), so a quit made before that is lost and the loop
  goes to poll (`EarlyQuitLost`). m_quit is set exactly by the quits made since the entry (`QuitIff`),
  and these end the loop at its next test (`QuitHonoured`).
- Functors queued while the last batch runs are not executed when the loop is quit
  (src/tcp/EventLoop.cpp:70-82 tests m_quit before it looks at the queue again): from any point, all that is
  queued gets executed exactly if nothing is pending behind the swap of a loop that was quit
  (`WakeupsDeliver`); otherwise it never will be (`LeftBehindForGood`).
- `Buffer` ignores the size its constructor is given (src/tcp/Buffer.h:30-33); the model does too.

## Model

| member | source | states |
|---|---|---|
| Paths.SplitPath | src/Services.cpp:74-86 | the getline loop computes the split function characterised below, error exit included |
| Paths.SplitCharacterised | src/Services.cpp:69-86 | a path splits into given components iff they are slash-free, nonempty but for the first, and print the path with or without one trailing slash |
| Paths.SplitFailsIff | src/Services.cpp:79-81 | "path error" exactly for the empty path and for two slashes in a row |
| Paths.AbsolutePathRoundTrip | src/Services.cpp:69-73 | /c1/…/ck, also with a trailing slash, gives back "", c1, …, ck |
| NamespaceSpec.CreateKeepsWellFormed | src/Services.cpp:120-163 | creation keeps the key set prefix-closed, and the dummy and root in place |
| NamespaceSpec.DeleteKeepsWellFormed | src/Services.cpp:270-307 | deletion leaves no orphaned places and never takes the root |
| NamespaceSpec.RemoveOwnedKeepsWellFormed | src/Services.cpp:41-51 | neither does the removal of sessions' nodes |
| NamespaceSpec.RemoveOwnedInSteps | src/HeapHeartbeatCounter.cpp:60-71 | sessions ended one after the other leave the tree they leave when ended together, in whatever order the heap yields them |
| NamespaceSpec.NothingOwnedRemains | src/Services.cpp:41-51 | after a removal nothing is, or lies below, a node of a removed session |
| NamespaceSpec.CreateThenDelete | src/Services.cpp:120-307 | deleting a node just created gives back the former tree exactly when its path has at least two components |
| NamespaceSpec.TopLevelNodeStays | src/Services.cpp:282-287 | creating any slash-free name on a fresh tree succeeds, and the delete request with the same path is refused |
| NamespaceSpec.DeleteSparesTopLevel | src/Services.cpp:282-287 | no delete request, whatever its path and the tree, removes or changes a node with a one-component path |
| NamespaceSpec.CreateExact | src/Services.cpp:120-163 | a create is accepted iff the parent exists and the place is free; then the place holds the given data and kind, owned by the session only if ephemeral, and every other place is as before |
| NamespaceSpec.SetExact | src/Services.cpp:225-252 | a set is accepted iff the place exists; then the place holds the given data with the kind and owner it had, and every other place is as before |
| NamespaceSpec.DeleteExact | src/Services.cpp:270-307 | a delete is accepted iff the place exists and has at least two components, children or not; then exactly the places at or below it are gone, the others as before |
| NamespaceSpec.RemoveOwnedExact | src/Services.cpp:41-51 | the end of sessions takes exactly the places at or below one of their nodes; the others are as before |
| NamespaceSpec.ChildNamesExact | src/Services.cpp:338-345 | a listing has a name iff the place one step on by that name exists |
| NamespaceSpec.SetTwice | src/Services.cpp:225-252 | the last of two sets wins |
| NamespaceSpec.CreateThenSet | src/Services.cpp:120-252 | setting a node just created equals creating it with that data |
| NamespaceSpec.SetThenDelete | src/Services.cpp:225-307 | a set at or below a place makes no difference to what its deletion leaves |
| NamespaceSpec.CreateThenDeleteAbove | src/Services.cpp:120-307 | nor does a create below it, so children never keep a node from being deleted |
| Arenas.LiveIffReachable | src/Services.cpp:89-103 | a node is allocated iff child links lead to it from the dummy, and then along one path only |
| Arenas.WalkMeetsView | src/Services.cpp:89-103 | following child links succeeds exactly for the places in the client view |
| Arenas.AncestorAt | src/DNode.h:59-60 | every node has a live ancestor at every prefix of its path |
| Arenas.EraseIsPrune | src/Services.cpp:298 | unlinking one child and freeing its subtree changes no other node and leaves no dangling link |
| Arenas.SubtreeIsTopAndChildren | src/DNode.h:53-60 | what hangs from a node is the node and, disjointly by ChildSubtree, what hangs from each child |
| Arenas.PruneKeepsTree | src/Services.cpp:298 | freeing whole subtrees leaves a tree: every live node still has its live parent and is that parent's child under its name |
| Arenas.PruneDoomedView | src/Services.cpp:54-64 | pruning the nodes at or below a session's nodes is, for clients, the removal of exactly the doomed places |
| Arenas.LinkKeepsTree | src/Services.cpp:151-152 | hanging a fresh node under a free name keeps the tree |
| ServiceTree.IndexNamesDoomed | src/Services.cpp:46-50 | the subtrees of the unexpired index entries are exactly the nodes at or below a live node of the session |
| ServiceTree.HitStep | src/Services.cpp:47-49 | one index entry adds its subtree to what is gone; one that expired before or during the loop adds nothing |
| ServiceTree.ScanStep | src/Services.cpp:56-63 | one child of the scan: with what was gone before it covers all that is doomed below that child, and takes nothing else |
| ServiceTree.ScanDone | src/Services.cpp:54-64 | after the last child all that is doomed below the scanned node is gone |
| ServiceTree.Services.constructor | src/Services.cpp:13-18 | starts with the dummy and the root "" |
| ServiceTree.Services.Release | src/DNode.h:59-78 | the destructor cascade frees exactly the subtree |
| ServiceTree.Services.Erase | src/Services.cpp:298 | children.erase with the cascade behind it |
| ServiceTree.Services.WalkTo | src/Services.cpp:89-103 | finds the node at a place iff the place is in the view |
| ServiceTree.Services.WalkToParent | src/Services.cpp:132-144 | finds the parent iff it exists, and its child table has the name iff the place is in the view |
| ServiceTree.Services.CreateNode | src/Services.cpp:120-163 | succeeds iff the parent exists and the name is free; then exactly one key is added, else nothing changes |
| ServiceTree.Services.Link | src/Services.cpp:151-157 | the new node appears at its place and, if ephemeral, in its session's index |
| ServiceTree.Services.GetNode | src/Services.cpp:181-207 | the data at the place, or an error when there is none |
| ServiceTree.Services.SetNode | src/Services.cpp:225-252 | changes one node's data and nothing else |
| ServiceTree.Services.DeleteNode | src/Services.cpp:270-307 | removes exactly the key and all its extensions; refused for one component |
| ServiceTree.Services.LsNode | src/Services.cpp:325-354 | exactly the one-step extensions of the path |
| ServiceTree.Services.ExistsNode | src/Services.cpp:419-438 | whether the place is in the view, or a path error |
| ServiceTree.Services.EraseEntry | src/Services.cpp:46-50 | one round of the index loop, with both expiry tests |
| ServiceTree.Services.RemoveEphemeral | src/Services.cpp:41-51 | leaves precisely the nodes with no self-or-ancestor that is an ephemeral node of the session |
| ServiceTree.Services.RemoveEphemeralScan | src/Services.cpp:54-64 | the recursive scan from any node prunes precisely what is doomed below that node |
| ServiceTree.CompareRemovals | src/Services.cpp:41-64 | on the same memory the index-driven removal and the scan from the dummy end in the same memory |
| ServiceClients.SetThenGet | src/Services.cpp:181-252 | an accepted set is read back; it is accepted iff the node could be read |
| ServiceClients.SetThenGetOther | src/Services.cpp:181-252 | a read of any other path gives what it gave before the set |
| ServiceClients.CreateThenGet | src/Services.cpp:120-207 | an accepted create is read back with its data and is in the parent's listing; it is accepted iff the parent exists and the node does not |
| ServiceClients.DeleteThenExists | src/Services.cpp:270-438 | the node and everything below it do not exist after a delete of a path with two components or more, which is accepted iff the node existed |
| ServiceClients.DeleteThenGet | src/Services.cpp:181-307 | a read of any path not at or below the deleted one gives what it gave before |
| ServiceClients.EndThenExists | src/Services.cpp:41-51 | after the removal of a session's nodes a place still exists iff it did and no node of that session was at or above it |
| IndexedHeaps.ChangeSpoilsOnePosition | src/HeapTimer.cpp:46-47 | an arbitrary change of one key spoils at most the edges at its position |
| IndexedHeaps.ShiftUpRound | src/HeapTimer.cpp:117-121 | one round of shift_up moves the only spoilt position to the father |
| IndexedHeaps.ShiftDownRound | src/HeapTimer.cpp:132-146 | one round of shift_down moves it to the foremost child |
| IndexedHeaps.SwapThenDrop | src/HeapTimer.cpp:153-158 | moving the last entry into the hole and dropping the last slot spoils at most the hole |
| IndexedHeaps.FrontIsFirst | src/HeapTimer.cpp:54-55 | no entry of an ordered heap comes before the front |
| IndexedHeaps.FrontLeadsMap | src/HeapHeartbeatCounter.h:19-21 | the front has the least key of the map in the timer heap, the greatest in the counter heap |
| IndexedHeaps.IndexedHeap.SwapNode | src/HeapTimer.cpp:107-113 | keeps the position map exact and the contents unchanged |
| IndexedHeaps.IndexedHeap.ShiftUp | src/HeapTimer.cpp:115-127 | ends with at most the edges below the result spoilt, contents unchanged |
| IndexedHeaps.IndexedHeap.Foremost | src/HeapTimer.cpp:133-138 | the two comparisons find a position none of the three comes before |
| IndexedHeaps.IndexedHeap.ShiftDown | src/HeapTimer.cpp:130-148 | from there restores heap order, contents unchanged |
| IndexedHeaps.IndexedHeap.Restore | src/HeapTimer.cpp:28 | shift_down(shift_up(idx)) mends a heap with one spoilt position |
| IndexedHeaps.IndexedHeap.Push | src/HeapTimer.cpp:17-39 | the heap's map gets the key at the id, known or new |
| IndexedHeaps.IndexedHeap.Adjust | src/HeapTimer.cpp:41-48 | a known id gets the key; an unknown one changes nothing |
| IndexedHeaps.IndexedHeap.AddOne | src/HeapHeartbeatCounter.cpp:50-58 | a known id's count grows by one |
| IndexedHeaps.IndexedHeap.DeleteNode | src/HeapTimer.cpp:151-166 | removes exactly the id at the position, also from the middle |
| IndexedHeaps.IndexedHeap.Pop | src/HeapTimer.cpp:84-88 | removes exactly the front's id |
| IndexedHeaps.IndexedHeap.Del | src/HeapTimer.cpp:95-101 | removes exactly the given id |
| IndexedHeaps.IndexedHeap.Clear | src/HeapTimer.cpp:90-93 | empties the map |
| Protocol.ExpiredIff | src/HeapTimer.cpp:55 | the truncating test means: less than one millisecond is left |
| HeapTimers.CollectStops | src/HeapTimer.cpp:55-58 | stopping at an unexpired front leaves only timers unexpired at that reading |
| HeapTimers.CollectOne | src/HeapTimer.cpp:61-63 | popping an expired front keeps: once each, expired when read, earliest first |
| HeapTimers.CollectRound | src/HeapTimer.cpp:53-64 | one round: an expired front joins what was fired, an unexpired one ends the loop |
| HeapTimers.CollectExpired | src/HeapTimer.cpp:50-65 | the expiry loop ends, and fires every timer at most once, in deadline order, leaving only unexpired ones |
| HeapTimers.NextTick | src/HeapTimer.cpp:75-80 | what follows the tick: whole milliseconds to the earliest deadline, 0 iff one has passed, -1 iff there is none |
| ProtocolTheorems.RearmedAt | src/HeartbeatCounter.cpp:53-58 | after the callbacks each fired timer runs from its own reading, the others are untouched |
| ProtocolTheorems.TablesAgree | src/SRCServer.cpp:88-91 | in every run timer heap, counter heap and session table hold the same ids |
| ProtocolTheorems.CountsAreExact | src/HeartbeatCounter.cpp:53-88 | every count is the number of expiries since the latest connect or heartbeat, and below the limit |
| ProtocolTheorems.TickEndsExactly | src/HeartbeatCounter.cpp:47-50 | a tick ends exactly the sessions whose misses, this tick's included, reach the limit |
| ProtocolTheorems.TickFiresExpired | src/HeapTimer.cpp:50-65 | every timer expired at a tick's first reading is fired in it, once |
| ProtocolTheorems.TickSweeps | src/SRCServer.cpp:161-166 | the tick that ends a session leaves nothing at or below one of its nodes |
| ProtocolTheorems.TickSparesExactly | src/HeapHeartbeatCounter.cpp:60-71 | across a tick a node stays, unchanged, iff every session node at or above it whose owner was registered before the tick has that owner registered after it; no node appears |
| ProtocolTheorems.DeadlineNotEarly | src/HeartbeatCounter.cpp:53-58 | after c misses the deadline is at least lastBeat + T and c shortest periods |
| ProtocolTheorems.NoEarlyDeath | src/HeartbeatCounter.cpp:47-74 | for a positive limit, the expiry test that ends a session reads no earlier than limit shortest periods after its latest heartbeat |
| ProtocolTheorems.EndsLate | src/HeartbeatCounter.cpp:47-74 | the same of the whole tick, for every timeout and limit |
| ProtocolTheorems.EarliestDeath | src/HeapTimer.cpp:55 | for every timeout, limit and session some run ends the session exactly then |
| ProtocolTheorems.LivesAtLeastIff | src/HeapTimer.cpp:55 | for every timeout and limit: all sessions are let live for b after their latest heartbeat iff b is at most the bound |
| ProtocolTheorems.FullPeriodsIff | src/HeapTimer.cpp:55 | for a positive limit: all sessions are let live for limit·T iff the configured timeout is not positive |
| ProtocolTheorems.DiligentUntilConnected | src/HeartbeatCounter.cpp:85-88 | up to its connect, however late, every client meets the condition of the next row |
| ProtocolTheorems.DiligentClientStays | src/HeartbeatCounter.cpp:85-88 | a client that connects, at any time, and whose latest heartbeat is younger than the bound at the end of every tick while it is registered, stays registered |
| ProtocolTheorems.DeadlineNotLate | src/HeartbeatCounter.cpp:91-120 | with ticks at most g apart, c misses push the deadline out by at most c longest periods, and no tick leaves less than the lead |
| ProtocolTheorems.RegisteredIsRecent | src/HeartbeatCounter.cpp:91-120 | with ticks at most g apart, a registered session was heard of within the last limit longest periods |
| ProtocolTheorems.NoTickSince | src/HeapHeartbeatCounter.cpp:60-71 | with a limit that is not positive, no tick has begun since a registered session's latest heartbeat |
| ProtocolTheorems.LatestSighting | src/HeartbeatCounter.cpp:91-120 | for every timeout, limit, session and g of at least 1 ns some run still has the session registered exactly that long after its latest heartbeat, at another session's connect |
| ProtocolTheorems.LivesAtMostIff | src/HeartbeatCounter.cpp:91-120 | no session stays registered for longer than b after its latest heartbeat iff b is at least limit longest periods |
| ProtocolTheorems.OwnerLiveStep | src/SRCServer.cpp:122-125 | an event keeps a session with nodes registered iff it is not a successful create for that session while unregistered |
| ProtocolTheorems.OwnerStaysRegisteredIff | src/SRCServer.cpp:82-169 | throughout a run a session with nodes is registered iff the run has no such create for it |
| ProtocolTheorems.OwnersLiveStep | src/SRCServer.cpp:122-125 | an event keeps all owners registered iff it is not a successful create for an unregistered session |
| ProtocolTheorems.OwnersStayRegisteredIff | src/SRCServer.cpp:82-169 | every session node's owner is registered throughout a run iff the run has no such create |
| ProtocolTheorems.OrphanExample | src/SRCServer.cpp:122-125 | on a fresh server one create of a top-level session node, with any id, breaks it |
| ProtocolTheorems.TreeStaysWellFormed | src/Services.cpp:120-307 | in every run the tree stays prefix-closed with dummy and root |
| ProtocolTheorems.OrphansOutliveTicks | src/SRCServer.cpp:161-169 | a tick leaves a node as it is when all session nodes at or above it have unregistered owners |
| ProtocolTheorems.UnorphanedIsLive | src/SRCServer.cpp:82-169 | if a session that has got no node since it was last registered has any nodes, it is registered |
| ProtocolTheorems.OwnerRegisteredIsUnorphaned | src/SRCServer.cpp:82-169 | a session that never gets a node while unregistered meets that condition |
| ProtocolTheorems.SilentSessionIsGone | src/HeartbeatCounter.cpp:47-74 | with ticks at most g apart, once silent for longer than limit longest periods a session is in no table; and no node is at or below one of its nodes, provided no create made one for it since it was last registered |
| ServerHistory.RegisteredIff | src/SRCServer.cpp:82-169 | a session is registered iff it has connected and no tick since then has ended with its misses at the limit |
| ServerHistory.DeadlineIs | src/HeartbeatCounter.cpp:53-88 | a registered session's timer runs out exactly one timeout after its latest beat or the callback of its latest expiry, whichever is later |
| ServerHistory.TreeIs | src/SRCServer.cpp:82-169 | at every place the tree holds what the log tells: an accepted create put it there, the latest set gave the data, and no delete at or above it and no end of a session with a node at or above it has come since |
| ServerHistory.StateIs | src/SRCServer.cpp:82-169 | the same of all tables, the clock and the tree at once: in every run the whole state is what the log tells |
| Servers.FrontDecides | src/HeapHeartbeatCounter.cpp:61-66 | a front at the limit is due; a front below it leaves nobody due |
| Servers.RearmedWithout | src/HeapTimer.cpp:61-69 | re-pushing the popped ids ends where re-pushing them into the full heap would |
| Servers.TickOfHalves | src/HeartbeatCounter.cpp:47-50 | timer tick and counter tick, one after the other, are one legal tick of the protocol |
| Servers.SRCServer.constructor | src/SRCServer.cpp:14-50 | starts with an empty log, valid |
| Servers.SRCServer.Connect | src/SRCServer.cpp:82-103 | a connection request is the log's connect event |
| Servers.SRCServer.Enroll | src/SRCServer.cpp:89-91 | session table, timer and counter get the id; the tree is left alone |
| Servers.SRCServer.StartCounting | src/HeartbeatCounter.cpp:77-82 | a full period on the timer and a zero count |
| Servers.SRCServer.OnUDPMessage | src/SRCServer.cpp:146-154 | a heartbeat is the log's heartbeat event; an unregistered one changes nothing |
| Servers.SRCServer.ResetSession | src/HeartbeatCounter.cpp:85-88 | count to zero, timer to a full period |
| Servers.SRCServer.CreateNode | src/SRCServer.cpp:122-125 | a create request, whatever its session id, is the log's create event |
| Servers.SRCServer.SetNode | src/SRCServer.cpp:122-125 | a set request is the log's set event |
| Servers.SRCServer.DeleteNode | src/SRCServer.cpp:122-125 | a delete request is the log's delete event |
| Servers.SRCServer.Tick | src/HeartbeatCounter.cpp:47-50 | a tick is a legal tick event of the protocol |
| Servers.SRCServer.TimerTick | src/HeapTimer.cpp:50-70 | collect, then call back: the legal timer half of a tick |
| Servers.SRCServer.GetNextTick | src/HeapTimer.cpp:73-81 | the tick of the timer heap first, then the time to the earliest of the deadlines it leaves |
| Servers.SRCServer.RunTimeouts | src/HeapTimer.cpp:66-69 | one timeoutFunc for each fired id, each at its own reading |
| Servers.SRCServer.TimeoutFunc | src/HeartbeatCounter.cpp:53-64 | the timer starts anew and the count grows by one |
| Servers.SRCServer.CounterTick | src/HeapHeartbeatCounter.cpp:60-71 | takes exactly the ids whose count has reached the limit out of both heaps, the table and the tree |
| Servers.SRCServer.EndFront | src/HeapHeartbeatCounter.cpp:68-69 | callback, then pop, take out one and the same session |
| Servers.SRCServer.HeartbeatReach | src/HeartbeatCounter.cpp:66-74 | the callback takes the session out of the timer heap, the table and the tree |
| Servers.SilentSessionLeavesServer | src/SRCServer.cpp:161-169 | on the server's data, under the same two conditions: the session is in neither heap nor the table; and none of its nodes, nor one below, is allocated |
| Servers.ServerIsTold | src/SRCServer.cpp:82-169 | the same on the server's own data: session table, both heaps and the tree are what the server's log tells, at every id and every place |
| EventLoops.StepKeepsInv | src/tcp/EventLoop.cpp:64-162 | every atomic step of any thread keeps conservation, the flag's meaning and the wakeup invariant |
| EventLoops.InvHolds | src/tcp/EventLoop.cpp:64-162 | hence every interleaving does |
| EventLoops.NoLostWakeup | src/tcp/EventLoop.cpp:107-130 | with a functor pending past the swap, at poll or before the entry, the eventfd is readable or a write is owed; and so it is at poll with m_quit set |
| EventLoops.QuitIff | src/tcp/EventLoop.cpp:64-94 | m_quit is set exactly by the quits of any thread that no entry into loop() has followed |
| EventLoops.QuitHonoured | src/tcp/EventLoop.cpp:64-94 | a quit made after the entry stays set, and the next test of m_quit leaves the loop for good |
| EventLoops.EarlyQuitLost | src/tcp/EventLoop.cpp:66 | a quit made before the entry is lost: the loop goes to poll |
| EventLoops.DeliveredAtPoll | src/tcp/EventLoop.cpp:148-162 | executed ++ rest of batch ++ pending is the lock order of all enqueues; at poll all queued by the latest swap has been run |
| EventLoops.RoundDelivers | src/tcp/EventLoop.cpp:71-82 | back at poll after a swap, everything queued before that round has been run |
| EventLoops.WakeupsDeliver | src/tcp/EventLoop.cpp:64-162 | from any point of any run, the writes already owed and the loop's own steps, in any order and with no timeout or other event, are bounded in number; when none is left to take, the loop is over if it was quit since its entry and at poll otherwise, and everything queued has been executed, in lock order, iff nothing was left behind by a quit |
| EventLoops.WakeupsSuffice | src/tcp/EventLoop.cpp:64-162 | and from any point on the way such steps do get there |
| EventLoops.LoopGoesOn | src/tcp/EventLoop.cpp:64-86 | until it is over the loop thread always has a next step of its own; only in poll does it wait, and there a timeout may come at any time and a readable eventfd ends the wait |
| EventLoops.Receptive | src/tcp/EventLoop.cpp:88-115 | wherever the loop is, other threads can queue and quit, and so can every callback and functor |
| EventLoops.EnqueuedIs | src/tcp/EventLoop.cpp:107-115 | the queueing history is exactly the functors of the queueing steps, in their order |
| EventLoops.LeftBehindForGood | src/tcp/EventLoop.cpp:64-86 | what is pending behind the last swap of a loop that was quit is never executed, whatever happens later |
| EventLoops.LeftBehindExample | src/tcp/EventLoop.cpp:148-162 | for any functor some run leaves it behind |
| Buffers.Buffer.constructor | src/tcp/Buffer.h:28-34 | an empty buffer with 8 bytes in front and room for 1024, whatever size is asked for |
| Buffers.Buffer.ReadableBytes | src/tcp/Buffer.h:37-39 | the number of bytes waiting |
| Buffers.Buffer.Retrieve | src/tcp/Buffer.h:54-60 | takes that many bytes from the front, or all |
| Buffers.Buffer.RetrieveAsString | src/tcp/Buffer.h:70-74 | what is returned, followed by what is left, is what there was; asked for more than is readable it returns the content and what lies behind it in the vector, and empties the buffer |
| Buffers.Buffer.RetrieveAllAsString | src/tcp/Buffer.h:66-68 | returns everything and leaves nothing |
| Buffers.Buffer.Compact | src/tcp/Buffer.h:128-132 | the overlapping copy to the front keeps the content |
| Buffers.Buffer.MakeSpace | src/tcp/Buffer.h:122-133 | keeps the content, leaves at least len writable bytes; compacts only with readerIdx > 8 |
| Buffers.Buffer.Append | src/tcp/Buffer.h:86-90 | the bytes join the end of the content |
| Buffers.Buffer.ReadFd | src/tcp/Buffer.cpp:8-38 | whatever arrives, split over free space and stack area, joins the end of the content in order |
| TcpConnections.InvHolds | src/tcp/TcpConnection.cpp:73-270 | in every run write interest, shutdown count and state agree; and the state is connected, disconnecting or disconnected exactly as the established, shutdown and close events so far say |
| TcpConnections.StreamPreserved | src/tcp/TcpConnection.cpp:89-259 | for any partial writes, kernel bytes followed by the buffer are the accepted messages in order |
| TcpConnections.WriteInterest | src/tcp/TcpConnection.cpp:143-145 | until closed, write interest is on iff bytes wait |
| TcpConnections.GracefulShutdown | src/tcp/TcpConnection.cpp:152-259 | the write half is shut down at most once, only with every accepted byte in the kernel, and always when a disconnecting connection has drained |
| TcpConnections.ShutdownDrains | src/tcp/TcpConnection.cpp:152-259 | from the shutdown of an open connection until it is closed, write interest is on iff the kernel lacks accepted bytes, and the write half is shut, once, iff it lacks none |
| TcpConnections.ShutWhenDrained | src/tcp/TcpConnection.cpp:152-259 | in every run, also after the close, the write half has been shut iff the kernel had all accepted bytes at some point of a shutdown |
| TcpConnections.KernelGrowth | src/tcp/TcpConnection.cpp:89-259 | each event moves exactly the bytes the kernel takes: of a writable connection's buffer until closed, of a message sent while connected with nothing waiting, else none |
| TcpConnections.QuietAfterShutdown | src/tcp/TcpConnection.cpp:163-167 | afterwards nothing is written and no second shutdown is made |
| TcpConnections.TcpConnection.ConnectEstablished | src/tcp/TcpConnection.cpp:170-176 | the connection's established event |
| TcpConnections.TcpConnection.Send | src/tcp/TcpConnection.cpp:73-83 | the connection's send event, ignored unless connected |
| TcpConnections.TcpConnection.SendInLoop | src/tcp/TcpConnection.cpp:89-148 | direct write only when nothing waits; the rest is buffered behind what waits |
| TcpConnections.TcpConnection.HandleWrite | src/tcp/TcpConnection.cpp:219-259 | the connection's writable event, with the deferred shutdown |
| TcpConnections.TcpConnection.Shutdown | src/tcp/TcpConnection.cpp:152-161 | the connection's shutdown event |
| TcpConnections.TcpConnection.ShutdownInLoop | src/tcp/TcpConnection.cpp:163-167 | shuts the write half down unless bytes wait |
| TcpConnections.TcpConnection.HandleClose | src/tcp/TcpConnection.cpp:261-270 | the connection's close event |

## Left out

- Nodes are entries of a map from references to records, not objects: a pointer is a reference, a
  weak pointer has expired when its reference is no longer a key, and an update in place replaces
  the entry. References are never used again, as control blocks are not while weak pointers exist.
- The two heap classes have the same code but for the comparator, and are one class with an order.
- The callback slot of heap entries: in the server every timer entry calls timeoutFunc and every
  counter entry heartbeatReach, and the model calls these directly.
- Servers.SRCServer.Tick: notes the clock once when it begins, which the code does not; only the log uses it.
- Connect, heartbeat and tick are atomic steps. In the code push runs on I/O threads while tick and
  reset run on the heartbeat thread, without a lock.
- The clock is assumed not to go back, which high_resolution_clock does not promise.
- Buffers.Buffer.RetrieveAsString: does not model a len that reaches beyond the vector, where the copy is undefined.
- Buffers.Buffer.ReadFd: assumes that readv returns a count, because the code's test for a negative one never holds.
- TcpConnections.TcpConnection.Send: on the loop thread only, and assumes that write returns a count; handing a raw pointer over from another thread is not modelled.
- Write-complete and high-water callbacks: they change nothing in the connection.
- The loop's own thread queues functors only from inside callbacks and functors, and calls loop() once.
- The event loop's mutex and eventfd are atomic steps; poll may also return early or without the wakeup channel.
- Sockets, epoll, channels, the loop pool, UDP receive, protobuf parsing, session id generation,
  m_TCP_Id, stat, logging, configuration, the CLI and the client library.
