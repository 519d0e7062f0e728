# Chord: a verified model of the overlay, the replicas, the scheduler and the channel cache

The program is a Chord overlay (a ring of nodes with finger tables), a replicated file system on top of it, a thread
pool that runs its periodic jobs, and a cache of channels. This project models these four parts and proves what they
keep over all inputs, all runs and all interleavings. The bit width `m` of the identifier circle is a parameter; the
program instantiates 256.

## How the model is laid out

| part | modules |
|---|---|
| identifier circle, router of one node | `Ring`, `FingerTable` (pure), `Router` (the class over an array, tied to `FingerTable`) |
| lookup | `Lookup` (with dead nodes), `Routing` (number of forwards) |
| ring protocol | `Neighbours`, `Spacing`, `Stabilization`, `Winding`, `SplitRing`, `Join`, `Leave`, `Fixing` (of fingers), `Checking` and `Repair` (after failures), `Acquaintance` (who knows of whom after a call), `Membership` (whole histories); `Overlay` runs the handlers and client calls on `Router` objects and ties each of them to the functions the theorems are about |
| files | `Placement` (put and delete), `Rebalance`, `Conservation` (what rebalancing does to the bytes of a file), `ReadRepair`; `Filesystem` runs the requests and the chunk loops on one store object per member |
| thread pool | `Scheduler`, a state machine with one step per critical section; `Jobs`, `Dispatch`, `Wakeups`, `Timing`, `Shutdown` and `Periodic` are about its runs |
| cache | `Recency` (a sequence of entries: the keys), `CachedValues` (their values), `LruCache` (the class over a list of nodes and a map into it) |

Members of a ring are identified by their uuid. A remote call is a call on a node of the set of live nodes, or it
fails. In the file modules the ring is a sequence of members in clockwise order, a successor call yields the next
member, the hash of a uri is an arbitrary function, and so is the digest of the bytes of a file.

A ring is correct (`Neighbours.CorrectRing`) if every member's successor and predecessor are its neighbours and its
table is exact for the nodes it holds. Other fingers may name nodes that have left or failed.

## What the code does not promise

These are facts about the code that the theorems make exact. Each has its condition for all inputs.

* A finger holds the nearest node strictly past its start, and the first start is one step ahead, or two from the
  second last identifier. Routers that form a correct ring of a set of members exist if and only if every two members
  are farther apart than that (`Routing.Spaced`, `Spacing.RingExistsIffSpaced`): members two apart form a ring, unless
  one of them is the second last identifier and the other one 0, and members one apart do not (`Spacing.CloseMembers`).
  A join keeps the ring correct under the same condition (`Join.JoinKeepsRing`).
* Where no stabilization changes anything, successor and predecessor need not be inverse bijections. For given members
  they are in all such states if and only if the members are spaced, provided that there is such a state at all
  (`Spacing.InverseIffSpaced`, `Spacing.StableExistsIffRoomy`); in a given state they are if and only if no member has
  another one between itself and its first finger start as the predecessor of its successor
  (`Winding.QuiescentIsInverse`). `Spacing.CrowdedIsNotInverse` has three members, on a circle of any size, for which
  they are not although everybody knows everybody.
* Such a state need not be one ring: `SplitRing.QuiescentMayBeSplit` has two interleaved rings on a circle of any size.
  It is the correct ring exactly if the members are spaced and one member's successor pointer passes the origin:
  `Winding.QuiescentRingIffOneWrap`.
* A notification is signalled as a change of the predecessor unless its sender is the predecessor already, also if the
  predecessor stays what it is: the test asks whether the node lies between the sender and its successor
  (`Stabilization.SettledSignals`).
* A lookup for the identifier of a live node other than the one asked is never answered, because the local test
  excludes the successor itself: `Lookup.LookupAnswers`. With tables built from all members, every other identifier is
  looked up rightly except the largest one between the two members next to it: `Routing.LookupsRightIffNotHidden`.
* A router may lose its last finger and keep a predecessor; a notification then reads a successor that is missing
  (`Stabilization.SuccessorMayBeMissing`). It does so exactly in the state `Stabilization.ReadsMissing`, which no
  member of a correct ring is in (`Stabilization.SettledReadsNothingMissing`).
* A node does not always get rid of a failed predecessor. Some checks and stabilizations of its own achieve that if and
  only if it has a finger left (`Checking.FreedIffMendable`); the router of `SuccessorMayBeMissing` has none and is
  stuck (`Checking.StuckForEver`). A node that is left alone can get there if and only if its predecessor is none of
  its fingers (`Checking.AloneMayGetStuck`).
* A stabilization that meets a live successor with a failed predecessor in between adopts that one, and may forget the
  only live node it knows (`Repair.UnguardedMayForget`). The next live node stays listed if and only if a finger of the
  node starts between the two (`Repair.UnguardedKeepsGood`).
* Leave messages pass on what the leaving node knows, failed nodes included. They relink the ring if and only if the
  three routers involved name no failed node in the gaps concerned (`Leave.LeaveRelinks`), and one later stabilization
  makes it correct if and only if that is so or dropping one failed successor happens to complete it
  (`Leave.LeaveKeepsRingIff`).
* The lookup by which a finger is fixed is not answered if the start of the finger is another member
  (`Fixing.StartIsNotFound`).
* A put skips the upload to a member whose metadata record the digest of the bytes, also if the file itself is gone. It
  stores its bytes on all the members it should if and only if none of them is in that state
  (`Placement.PutStoresIffNotStale`). After all files are lost, putting the bytes again stores empty files, and only
  the second put restores them, given that their digest is not that of an empty file (`ReadRepair.SecondPutRestores`).
* Rebalancing may overwrite good copies: the put runs through a member that has lost its copy, which creates an empty
  file, skips the upload and hands the empty file on (`Conservation.RebalanceMayOverwrite`). If all copies of a file
  agree, they still do afterwards if and only if the file is empty, or the rebalancing member does not put it again, or
  no member that the put gets to has lost its copy (`Conservation.RebalanceKeepsBytes`).
* When the holder of the last copy fails, the number of copies is not restored, because its successor holds no copy to
  put again: `Rebalance.FailKeepsReplicas`.
* A read that fails leaves an empty file on every member it went through, and when all members have lost the file the
  read succeeds with no bytes: `ReadRepair.GetOutcome`.
* A periodic job runs exactly twice: the wrapper hands the bare job to the overload for a point in time
  (`include/chord.scheduler.h:126-134`). So "a periodic job always has an instance" fails
  (`Periodic.PeriodicJobRunsOut`); it has exactly one as long as it has run less than twice
  (`Jobs.InstanceIffRunsLeft`).
* A due job may wait although no worker runs one, because a leader is not woken when an earlier job is scheduled
  (`Dispatch.DueJobMayWait`). Some worker runs or can start a job if and only if one is available
  (`Dispatch.DueJobCanStart`), and otherwise it is a leader ahead of its own deadline that delays it
  (`Dispatch.OnlyTheLeaderDelays`).

## Model

| member | source | states |
|---|---|---|
| Ring.BetweenIsDistance | include/chord.uuid.h:112-117 | `between` excludes both ends and is a comparison of clockwise distances; equal ends mean everything but that point |
| Ring.StartIsDoubleModulus | src/chord.router.cc:59-64 | the finger start is the sum wrapped at 2^m and then reduced modulo 2^m - 1 |
| Ring.OffsetIsPower | src/chord.router.cc:59-64 | start i lies 2^i steps ahead, one more only if the sum lands on the maximum, and never on the node itself |
| Ring.OffsetsIncrease | src/chord.router.cc:59-64 | the starts run clockwise in order, and at most one of them has the extra step |
| FingerTable.ImprovesIsNearer | src/chord.router.cc:97 | the test of the update loop holds iff the new node is past the start and nearer than the finger |
| FingerTable.ImprovesPredIsFarther | src/chord.router.cc:105-106 | the predecessor is replaced iff the new node is farther clockwise |
| FingerTable.UpdatesRefineSet | src/chord.router.cc:31-37 | after any updates from reset every finger is the nearest node ever given strictly past its start, and the predecessor the farthest (with src/chord.router.cc:87-114) |
| FingerTable.ExactIsUnique | src/chord.router.cc:87-114 | a set of nodes determines the router |
| FingerTable.UpdatesCommute | src/chord.router.cc:82-114 | reordering or repeating updates gives the same router |
| FingerTable.FingersMonotone | src/chord.router.cc:87-114 | fingers run clockwise without holes |
| FingerTable.UpdateConsistent | src/chord.router.cc:87-114 | one update keeps every finger the nearest of the node's own fingers, and brings in no other node than the given one |
| FingerTable.RemoveNodes | src/chord.router.cc:138-153 | removing a node takes exactly that node out of the fingers |
| FingerTable.RemoveRebuilds | src/chord.router.cc:116-167 | removing a node gives the table of the remaining nodes; a removed predecessor becomes the farthest finger or nothing, any other stays |
| FingerTable.ReachableIsConsistent | src/chord.router.cc:87-167 | in every state reachable by updates and removals the table is the one of its own node set; no predecessor implies no fingers |
| FingerTable.PrecedingNodes | src/chord.router.cc:178-192 | the candidates are exactly the distinct fingers strictly between, farthest first, then the node itself |
| Router.Router.constructor | src/chord.router.cc:21-25 | a new router is empty and consistent |
| Router.Router.Init | src/chord.router.cc:31-37 | every finger gets its start and no node; the predecessor is not touched |
| Router.Router.Reset | src/chord.router.cc:39-47 | the router is empty again |
| Router.Router.Update | src/chord.router.cc:87-114 | the forward scan over the array computes the update of the table, reports whether a finger changed and which successor and predecessor were replaced |
| Router.Router.ReplaceFinger | src/chord.router.cc:138-153 | one entry of the scan: it is replaced by the cursor's node if it names the removed one, and moves the cursor if it stays |
| Router.Router.ReplaceFingers | src/chord.router.cc:119-158 | the backward scan with its replacement cursor computes the removal, fingers and predecessor |
| Router.Router.Remove | src/chord.router.cc:116-167 | the removal keeps the router consistent, reports the failed neighbours, and always returns false |
| Router.Router.ClosestPrecedingNodes | src/chord.router.cc:178-192 | the backward scan yields the fingers strictly between, farthest first, and then the node itself |
| Router.Router.Get | src/chord.router.cc:205-213 | the set of nodes held by the fingers |
| Router.Router.Successor | src/chord.router.cc:74-80 | the node of the first finger, if there is one |
| Router.Router.SuccessorOrSelf | src/chord.router.cc:70-80 | the first finger, or the node itself |
| Lookup.DropDeadFindsNext | src/chord.service.cc:136-141 | the ping and remove loop ends, at the next live node, with the router still consistent and no node added |
| Lookup.LocalAnswer | src/chord.service.cc:143-152 | the local answer is the first live node past the identifier |
| Lookup.SuccessorAnswers | src/chord.service.cc:124-155 | a request keeps every router good, is never refused, and needs no more forwards than the distance to the identifier |
| Lookup.ForwardAnswers | src/chord.client.cc:281-295 | asking the candidates in turn gets the answer, whatever dead ones come first |
| Lookup.LookupAnswers | src/chord.service.cc:124-155 | from any live node a lookup is answered iff the identifier is no other live node, and then with the first live node past it (with src/chord.client.cc:281-295) |
| Routing.HalfwayFinger | src/chord.router.cc:59-64 | before any node past the first finger start there is a finger start that lies at most one step short of half of the way |
| Routing.ForwardHalves | src/chord.router.cc:178-192 | with a table built from all members the first candidate at least halves the distance to the last member before the identifier, unless that member lies no further than the first finger start |
| Routing.AnswerIsRight | src/chord.service.cc:143-152 | the answer of a router that knows all members is the first member past the identifier, unless the identifier is hidden |
| Routing.LookupIsLogarithmic | src/chord.service.cc:143-154 | with tables built from all members, however close, every lookup of an identifier that is neither a member nor hidden is answered rightly within m - 1 forwards (with src/chord.client.cc:281-295) |
| Routing.LookupsRightIffNotHidden | src/chord.service.cc:143-154 | lookups of an identifier that is no member are answered rightly from every member iff it is not the largest one between two members next to it (with src/chord.router.cc:59-64) |
| Routing.OwnLookup | src/chord.facade.cc:148-150 | a member that looks up its own identifier is told the next member iff no member is too close in front of it |
| Neighbours.RingIsSpaced | src/chord.router.cc:59-64 | the members of a correct ring lie past each other's first finger starts (with src/chord.router.cc:97) |
| Neighbours.RingIsGood | src/chord.service.cc:124-155 | a correct ring meets the hypothesis of the lookup theorem |
| Neighbours.SettledAfterJoin | src/chord.router.cc:87-114 | a router told of a joined member past its first finger start has the right neighbours of the enlarged ring |
| Spacing.AllKnowRing | src/chord.router.cc:87-114 | routers that know all members form a correct ring iff the members are spaced |
| Spacing.RingExistsIffSpaced | src/chord.router.cc:59-64 | there are routers that form a correct ring of given members iff the members are spaced (with src/chord.router.cc:97) |
| Spacing.CloseMembers | src/chord.router.cc:59-64 | members two apart are spaced, members one apart and members on both sides of the largest identifier are not |
| Spacing.StableExistsIffRoomy | src/chord.router.cc:59-64 | the hypothesis of the stabilization theorems can be met iff every member has another one past its first finger start (with src/chord.router.cc:97) |
| Spacing.InverseIffSpaced | src/chord.client.cc:185-226 | for given members, successor and predecessor are inverse bijections in all states that no stabilization changes iff the members are spaced, or there is no such state (with src/chord.service.cc:199-241) |
| Spacing.CrowdedIsNotInverse | src/chord.client.cc:185-226 | for every m >= 3, three members that all know each other, and are not changed by any stabilization, whose pointers are not inverse (with src/chord.router.cc:97) |
| Stabilization.UpdateDropsWeight | src/chord.router.cc:87-114 | an update that changes a router lowers the sum of its distances |
| Stabilization.SuccessorMayBeMissing | src/chord.service.cc:223-224 | updates and a removal lead to a router on which a notification reads a missing successor (with src/chord.router.cc:116-167) |
| Stabilization.SettledReadsNothingMissing | src/chord.service.cc:217-226 | no notification of a member of a correct ring reads a missing successor |
| Stabilization.SettledSignals | src/chord.service.cc:217-226 | in a correct ring a notification by a member is signalled iff that member is not the predecessor already, although the predecessor never changes |
| Stabilization.StabilizeDescends | src/chord.client.cc:185-226 | a stabilization that changes any pointer strictly lowers the sum of all clockwise distances (with src/chord.service.cc:157-180 and src/chord.service.cc:199-241) |
| Stabilization.StabilizationTerminates | src/chord.client.cc:185-226 | in any order of stabilizations no more than the initial sum have an effect (with src/chord.facade.cc:155-161) |
| Stabilization.QuiescentSuccessor | src/chord.client.cc:211-225 | if a node's stabilization changes nothing, its successor's predecessor is the node itself or lies no further than its first finger start (with src/chord.service.cc:228) |
| Winding.QuiescentIsInverse | src/chord.client.cc:185-226 | in a state that no stabilization changes, successor and predecessor are inverse bijections iff no member is crowded by the predecessor of its successor, and always if the members are spaced (with src/chord.service.cc:199-241) |
| Winding.QuiescentRingIffOneWrap | src/chord.client.cc:185-226 | such a state is the correct ring iff the members are spaced and exactly one successor pointer passes the origin (with src/chord.service.cc:199-241) |
| SplitRing.QuiescentMayBeSplit | src/chord.client.cc:185-226 | for every m >= 4, two interleaved rings of two spaced members each that no stabilization changes (with src/chord.service.cc:199-241) |
| Join.RequestFindsGap | src/chord.service.cc:44-108 | a join request sent to any member of a correct ring ends at two consecutive members around the joining node, past any failed candidates (with src/chord.client.cc:168-182) |
| Join.NeighboursAnswer | src/chord.service.cc:76-105 | a member answers the request itself, without passing it on, iff it is one of the two neighbours of the joining node |
| Join.RequestIsAnswered | src/chord.service.cc:81-103 | routers that are consistent never get to read a missing predecessor when a node that is no member joins |
| Join.JoinerSettles | src/chord.client.cc:150-155 | the two updates give the joining node its successor and predecessor |
| Join.LinkKeepsRing | src/chord.facade.cc:121-139 | the two notifications leave the enlarged ring correct, including a ring of one (with src/chord.service.cc:199-241) |
| Join.JoinKeepsRing | src/chord.service.cc:44-108 | a join through any member of a correct ring leaves the enlarged ring correct iff its members are spaced (with src/chord.client.cc:134-182 and src/chord.facade.cc:121-139) |
| Join.SuccessorSignalsJoin | src/chord.service.cc:217-238 | of the two notified neighbours exactly the successor of the joined node signals a new predecessor, upon which it rebalances, and a single member signals it once (with src/chord.fs.facade.cc:380-388) |
| Leave.HearKnows | src/chord.service.cc:182-197 | after a leave message the fingers are the nearest, and the predecessor the farthest, of all that the node knew and was told, without the leaving node |
| Leave.LeaveRelinks | src/chord.client.cc:67-124 | the leave messages make the predecessor point at the successor at once, with nothing to do but to tell that one, iff the three routers involved name no failed node in the gaps concerned; no other router is touched (with src/chord.service.cc:182-197) |
| Leave.PredecessorStabilizes | src/chord.client.cc:185-226 | the stabilization of the predecessor then settles the successor and changes nothing else |
| Leave.LeaveKeepsRing | src/chord.client.cc:67-124 | in that case one later stabilization makes the ring of the remaining members correct; the other routers may still name the node that left (with src/chord.client.cc:185-226) |
| Leave.LeaveKeepsRingIff | src/chord.client.cc:67-124 | the ring of the remaining members is then correct iff the gaps were undisturbed, or dropping one failed successor happens to complete it (with src/chord.client.cc:185-226) |
| Checking.FreedIffMendable | src/chord.client.cc:316-346 | some checks and stabilizations of its own rid a node of a failed predecessor iff it has none or has a finger left (with src/chord.client.cc:185-226 and src/chord.router.cc:116-167) |
| Checking.AloneMayGetStuck | src/chord.client.cc:316-346 | the tasks of a node that is left alone can lead to a failed predecessor without a finger, for ever, iff its predecessor is none of its fingers (with src/chord.client.cc:191-209) |
| Checking.StuckForEver | src/chord.client.cc:324-327 | a reachable router that no checks and stabilizations rid of its failed predecessor (with src/chord.router.cc:116-167) |
| Repair.CheckStep | src/chord.client.cc:316-346 | a check makes no member worse off, changes no other router, and removes a failed predecessor |
| Repair.StabilizeDropsFailed | src/chord.client.cc:191-209 | while failed nodes are ahead of the next live one, a stabilization drops one of them, changes no other router and keeps the hypothesis of the lookup theorem; when none is left, the successor is the next live node |
| Repair.StabilizeStep | src/chord.client.cc:185-226 | a stabilization that meets no live successor with a failed predecessor joins the node with the next live one or drops a failed node in front, and makes nobody worse off (with src/chord.service.cc:199-241) |
| Repair.RepairsRing | src/chord.client.cc:185-226 | after any failures that leave each of two or more members with the next live one among its fingers, any interleaving of checks and such stabilizations makes the correct ring of those left, if every member makes m + 1 stabilizations (with src/chord.client.cc:316-346) |
| Repair.ChecksFirstRepairRing | src/chord.client.cc:316-346 | in particular m + 1 checks and then m + 1 stabilizations of every member, each in any order (with src/chord.client.cc:185-226) |
| Repair.UnguardedKeepsGood | src/chord.client.cc:211-225 | a stabilization that adopts a failed node keeps the next live one listed iff a finger of the node starts between the two (with src/chord.router.cc:97) |
| Repair.UnguardedMayForget | src/chord.client.cc:211-225 | for every m >= 4, two live nodes that list each other until such a stabilization |
| Fixing.FixImproves | src/chord.service.cc:253-270 | fixing a finger keeps the ring correct, makes no finger wrong or stale, and makes the finger right if its start is no member and the router has no stale finger |
| Fixing.StartIsNotFound | src/chord.service.cc:253-270 | the lookup of a finger start that is another member is not answered (with src/chord.service.cc:143) |
| Fixing.FixesMakeFull | src/chord.service.cc:253-270 | in a correct ring without stale fingers, in which no member is a finger start, fixing every finger once in any order builds every table from all members |
| Fixing.FixedIsLogarithmic | src/chord.service.cc:253-270 | every lookup of an identifier that is neither a member nor hidden is then answered rightly within m - 1 forwards (with src/chord.service.cc:143-154) |
| Acquaintance.SuccessorUpdates | src/chord.service.cc:124-155 | a lookup does nothing to a router with a live successor but let it take note of live nodes |
| Acquaintance.SenderIsNoted | src/chord.service.cc:128-129 | after a request the node asked has a predecessor at least as far as the sender, and no finger that starts before the sender names a node past it, if its successor is alive or any finger takes the sender |
| Acquaintance.AskerIsNoted | src/chord.client.cc:281-295 | a node that passes a request on is noted in this way by the first live candidate |
| Acquaintance.RequestDropsFailed | src/chord.service.cc:136-141 | whatever has failed, after a request the successor of the node asked is the next live node |
| Acquaintance.FixFollowsAnswer | src/chord.service.cc:253-270 | whatever has failed, fixing a finger ends with the first live node past its start being noted, or with the start being forgotten when that is the node itself |
| Acquaintance.StabilizeNotifies | src/chord.client.cc:185-226 | with any live set, a stabilization that ends with a live successor has told that one of the node, a newly adopted one included; an adopted predecessor is noted and nobody else changes (with src/chord.client.cc:251-268) |
| Acquaintance.AnnounceIntroduces | src/chord.facade.cc:128-136 | each neighbour that can be reached has noted the joining node and the neighbour on the other side; the joining node's router is reset iff one of them cannot be reached (with src/chord.service.cc:227-235) |
| Acquaintance.JoinIsUndone | src/chord.facade.cc:113-139 | a join between two consecutive members, of which some have failed since, leaves the joining node with an empty router iff one of its two neighbours has |
| Acquaintance.LeaveInforms | src/chord.client.cc:113-124 | each live neighbour of a leaving node forgets it and notes all that it names, whether or not the other one can be reached; nobody else changes (with src/chord.service.cc:182-197) |
| Membership.EventKeepsRing | src/chord.facade.cc:77-168 | each possible join, leave, failure with its repair, stabilization, fix of a finger and lookup leads from a correct ring to a correct ring |
| Membership.RingThroughout | src/chord.facade.cc:77-168 | in every state of every history the ring is correct |
| Membership.RingFromOneNode | src/chord.facade.cc:62-75 | so it is in every history that begins with one node that has just been started |
| Membership.LookupsThroughout | src/chord.service.cc:124-155 | in every state of every history every lookup of an identifier that is no member is answered with the first member past it |
| Overlay.Overlay.Tell | src/chord.router.cc:87-114 | an update of one router object changes the network at that node only |
| Overlay.Overlay.Forget | src/chord.router.cc:116-167 | a removal at one router object changes the network at that node only |
| Overlay.Overlay.SkipFailed | src/chord.service.cc:136-141 | the ping loop on the router object computes the drop of the failed successors |
| Overlay.Overlay.Successor | src/chord.service.cc:124-155 | the handler, on router objects, computes the lookup step of `Lookup` |
| Overlay.Overlay.Forward | src/chord.client.cc:281-295 | the loop over the candidates, returning on the first answer |
| Overlay.Overlay.FixFinger | src/chord.service.cc:253-270 | the handler, on router objects, computes the fix of `Fixing` |
| Overlay.Overlay.Notify | src/chord.service.cc:199-241 | a notification updates the router with the sender and the two nodes named, and signals a new predecessor unless a missing successor is read; one from itself is refused |
| Overlay.Overlay.NotifySuccessor | src/chord.client.cc:251-268 | the successor is notified if there is another one |
| Overlay.Overlay.Stabilize | src/chord.client.cc:185-226 | ask, adopt, notify; a dead successor is removed instead |
| Overlay.Overlay.Check | src/chord.client.cc:316-346 | a predecessor that does not answer is removed, unless there is no successor |
| Overlay.Overlay.JoinRequest | src/chord.service.cc:44-108 | the handler and the forwarding loop compute the request of `Join` (with src/chord.client.cc:168-182) |
| Overlay.Overlay.Join | src/chord.client.cc:134-160 | a join never reads a missing predecessor; the gap found is linked in, and a failed request changes nothing (with src/chord.facade.cc:121-139) |
| Overlay.Overlay.Link | src/chord.client.cc:150-155 | the two updates, and then the notifications of the neighbours found (with src/chord.facade.cc:128-136) |
| Overlay.Overlay.Announce | src/chord.facade.cc:113-139 | the two notifications, predecessor first, and the reset if one of them fails |
| Overlay.Overlay.Leave | src/chord.client.cc:67-124 | successor first, then predecessor, each informed with all nodes of the fingers |
| Overlay.Overlay.Inform | src/chord.service.cc:182-197 | the handler removes the leaving node and then takes over every entry |
| Placement.PutFills | src/chord.fs.service.cc:256-356 | from any state a put that has arrived at any rank stores the copies from there on, each member handing on what it keeps, and ends, also when it comes back to its source; a rebalancing one then deletes behind the last copy (with src/chord.fs.client.cc:97-101 and src/chord.fs.client.options.cc:13-19) |
| Placement.PutCarries | src/chord.fs.service.cc:290-345 | from any state, what each of the first members stores after a put, and under which index and digest (with src/chord.fs.service.cc:236-254) |
| Placement.PutStoresIffNotStale | src/chord.fs.service.cc:236-254 | from any state, a put stores its bytes on all of the first members iff none of them records their digest without having them (with src/chord.fs.service.cc:286-345) |
| Placement.PutPlaces | src/chord.fs.service.cc:64-73 | a fresh put of any 32-bit count k stores the bytes at exactly the first min(k,N) members from the owner, the j-th under index j, and touches no other file (with src/chord.fs.service.cc:256-346 and src/chord.fs.replication.cc:22-62) |
| Placement.PutTouchesOneFile | src/chord.fs.service.cc:256-356 | no put changes another file, from any state and with any options |
| Placement.DelDrops | src/chord.fs.service.cc:358-389 | a delete drops the copies from its rank on, visiting the holders in order (with src/chord.fs.service.cc:491-527) |
| Placement.DelTouchesOneFile | src/chord.fs.service.cc:358-389 | no delete changes another file, from any state |
| Placement.DelSpares | src/chord.fs.service.cc:347-353 | the trailing delete of a rebalancing put spares the copies just put |
| Placement.DelOutcome | src/chord.fs.service.cc:491-527 | from every state: a delete runs through the members that know of a further copy and the first one that does not, leaves them without file and metadata, even if there was only a file, and touches nobody else (with src/chord.fs.service.cc:358-389) |
| Placement.DeleteClears | src/chord.fs.service.cc:358-389 | a delete at the owner visits every holder once and leaves the file on no member (with src/chord.fs.replication.cc:56-62) |
| Placement.DeleteUndoesPut | src/chord.fs.service.cc:256-389 | put and then delete give back the state of every member |
| Rebalance.OwnerAfterInsert | src/chord.fs.client.cc:79-83 | after a join the owner of a hash is the same member as before, or it is the joined node, and then the node behind it was the owner |
| Rebalance.JoinShifts | src/chord.fs.facade.cc:380-388 | right after a join the old members hold their copies at the new ranks, one too far past the joined node |
| Rebalance.Refill | src/chord.fs.service.cc:270 | a rebalancing put from the owner on, with its trailing delete, restores the placement if no member to hold a copy is stale (with src/chord.fs.service.cc:333-354) |
| Rebalance.JoinRebalances | src/chord.fs.facade.cc:261-291 | the rebalancing by the joined node's successor leaves exactly the first members as holders, and no other file changed (with src/chord.fs.service.cc:270 and src/chord.fs.service.cc:332-354) |
| Rebalance.JoinKeepsReplicas | src/chord.fs.facade.cc:261-291 | join and rebalancing lead from one correct placement of a file with k >= 2 copies to the next, wherever the node joins (with src/chord.fs.facade.cc:380-388) |
| Rebalance.FailRebalances | src/chord.fs.facade.cc:404-408 | after a failure the rebalancing of the next member restores the placement, unless the last copy failed (with include/chord.fs.metadata.manager.h:254-269) |
| Rebalance.FailKeepsReplicas | src/chord.fs.facade.cc:404-408 | a failure and its rebalancing keep the replica count iff the failed node did not hold the last of fewer copies than members (with src/chord.fs.facade.cc:261-291) |
| Rebalance.OthersStay | src/chord.fs.facade.cc:261-291 | rebalancing one file leaves the placement of the others as it is |
| Rebalance.JoinKeepsAllReplicas | src/chord.fs.facade.cc:261-291 | one pass over all metadata of the joined node's successor brings every file of the ring into place, whatever the order (with src/chord.fs.facade.cc:380-388) |
| Conservation.LostFileStays | src/chord.fs.facade.cc:261-291 | from any state: a pass over the metadata of a member that has lost a file changes nothing about that file on any member |
| Conservation.FailureRefreshes | src/chord.fs.facade.cc:404-408 | from any state: upon a failure only a member with a further copy puts the file again, and stores its bytes on all of the first members iff none of them is stale (with include/chord.fs.metadata.manager.h:254-269) |
| Conservation.RebalanceKeepsBytes | src/chord.fs.facade.cc:261-291 | if all copies of a file agree they still do after rebalancing iff nothing is put, or the file is empty, or no member that the put gets to has lost its copy (with src/chord.fs.service.cc:236-254) |
| Conservation.RebalanceMayOverwrite | src/chord.fs.service.cc:286-345 | three members of which the second has lost its copy: rebalancing empties the third one's file |
| ReadRepair.GetRepairs | src/chord.fs.service.cc:529-644 | a read returns the bytes of the first member ahead that has the file, and all members before it store them (with src/chord.fs.client.cc:341-370) |
| ReadRepair.GetFails | src/chord.fs.service.cc:529-604 | a read that meets a member without further copies fails and leaves an empty file before it |
| ReadRepair.GetAfterTotalLoss | src/chord.fs.service.cc:568-604 | when all members have lost the file a read succeeds with no bytes (with src/chord.fs.client.cc:341-346) |
| ReadRepair.GetOutcome | src/chord.fs.service.cc:529-644 | the result and the new state of a read, from every state |
| ReadRepair.SecondPutRestores | src/chord.fs.service.cc:236-254 | after the loss of all files a first put of the bytes stores empty files and a second one restores them, unless their digest is that of an empty file (with src/chord.fs.service.cc:286-345) |
| Filesystem.Send | src/chord.fs.service.cc:617-641 | the chunks are nonempty, all but the last one of full length, and concatenate to the bytes of the file |
| Filesystem.Receive | src/chord.fs.client.cc:365-367 | the written file is the concatenation of the chunks (with src/chord.fs.service.cc:300-309) |
| Filesystem.Store.Keep | src/chord.fs.service.cc:286-321 | the local part of a put: the file is created if missing, the upload is skipped on an equal digest, and the new digest is recorded |
| Filesystem.Store.Remove | src/chord.fs.service.cc:365-379 | metadata and file are removed, whichever there is (with src/chord.fs.service.cc:503-507) |
| Filesystem.Store.Open | src/chord.fs.client.cc:341-346 | opening for writing empties the file |
| Filesystem.Store.Write | src/chord.fs.client.cc:365-367 | the file becomes what is streamed |
| Filesystem.Cluster.Put | src/chord.fs.service.cc:256-356 | the handler, on the store of the member and with calls to the next one, computes the put of `Placement`, and refuses exactly what comes back to its source |
| Filesystem.Cluster.Del | src/chord.fs.service.cc:358-389 | the handler, on the store of the member and with a call to the next one, computes the delete of `Placement` (with src/chord.fs.service.cc:491-527) |
| Filesystem.Cluster.Get | src/chord.fs.service.cc:529-644 | the handler, through the chunk loops, computes the read of `ReadRepair` |
| Filesystem.Cluster.Rebalance | src/chord.fs.facade.cc:261-291 | the loop over the metadata puts file after file from its owner on |
| Scheduler.StepKeepsWaiting | include/chord.scheduler.h:64-69 | every step keeps: `task` is set iff exactly one worker is in the timed wait, the workers never all wait for the queue while jobs are pending, and after a shutdown every waiter has been woken (with include/chord.scheduler.h:120-167) |
| Jobs.StepKeepsJobs | include/chord.scheduler.h:120-167 | every step keeps: each job has exactly one queued or running instance until it has run as often as scheduled, and none after that |
| Jobs.Safety | include/chord.scheduler.h:120-167 | both hold in every state of every interleaving of any number of workers |
| Jobs.InstanceIffRunsLeft | include/chord.scheduler.h:126-134 | a job has an instance, and only one, iff it has run less than once, or less than twice if it is periodic |
| Periodic.PeriodicJobRunsOut | include/chord.scheduler.h:126-134 | a run after which a periodic job is scheduled no more |
| Dispatch.StartsEarliestDueJob | include/chord.scheduler.h:136-157 | a worker that starts a job takes the earliest one, and not before its time |
| Dispatch.DueJobCanStart | include/chord.scheduler.h:136-165 | while a job is due, some worker runs one or can start one without a spurious wakeup iff some worker is running, wants the mutex, has been woken from the timed wait, or is past its deadline |
| Dispatch.OnlyTheLeaderDelays | include/chord.scheduler.h:147-164 | in every state of every interleaving with pending jobs, some worker is available or a leader is ahead of its own deadline |
| Dispatch.DueJobMayWait | include/chord.scheduler.h:120-124 | a run after which a job is due and no worker is available until the deadline of the leader (with include/chord.scheduler.h:158-161) |
| Wakeups.StartWakes | include/chord.scheduler.h:148-157 | a worker that starts a job wakes the leader, if there is another one, and else exactly one of those that wait for the queue |
| Wakeups.NewJobWakes | include/chord.scheduler.h:120-134 | a step that queues a job, the second run of a periodic one included, wakes exactly one of those that wait for the queue |
| Wakeups.NextJobCanStart | include/chord.scheduler.h:147-157 | in every interleaving: when a worker starts a job while another one is idle, and a further job is due, then another worker can start that one at once |
| Wakeups.IdleWorkerWaits | include/chord.scheduler.h:158-164 | a worker that finds no due job goes to wait, as the leader iff a job is pending and nobody else leads |
| Wakeups.WokenInVain | include/chord.scheduler.h:158-161 | a leader woken in vain keeps its deadline and is not available before that or the next wakeup |
| Timing.FirstRunIsNotEarly | include/chord.scheduler.h:120-134 | in every interleaving: a scheduled job gets one instance, for its time or, if periodic, one interval ahead, and is not run before that |
| Timing.SecondRunIsNotEarly | include/chord.scheduler.h:126-134 | in every interleaving: after its first run a periodic job has one instance, for one interval after the end of that run, and is not run before that |
| Timing.WaitsForEarliest | include/chord.scheduler.h:158-161 | a worker that begins to wait for a deadline waits for the time of the earliest job, which is not due yet |
| Timing.LeaderAwaitsQueuedJob | include/chord.scheduler.h:147-164 | in every state of every interleaving a leader ahead of its deadline waits for the time of a job that is still queued |
| Shutdown.StepAfterShutdown | include/chord.scheduler.h:64-69 | after a shutdown every step of a worker uses up one of its at most two remaining steps (with include/chord.scheduler.h:147-166) |
| Shutdown.WorkersRunOut | include/chord.scheduler.h:85-91 | in any run after a shutdown the workers take at most two steps each, and all have left exactly when none is left to take (with include/chord.scheduler.h:147-166) |
| Shutdown.ShutdownEnds | include/chord.scheduler.h:93-98 | from the call of `shutdown` on the workers take at most two steps each, whatever is queued, and all have left exactly when none is left to take (with include/chord.scheduler.h:64-69) |
| Shutdown.ShutdownReleases | include/chord.scheduler.h:64-69 | after a shutdown every worker that runs no job has left, or wants the mutex, or has been woken, and can leave in its next step |
| Recency.ByRecencyIsOrdered | include/chord.lru.cache.h:77-93 | the recency order lists exactly the used keys, by the time of their last use |
| Recency.CacheIsMostRecent | include/chord.lru.cache.h:72-110 | on any trace of puts, reads and computes the keys are the first `capacity` distinct ones in reverse order of last use |
| Recency.SmallerCacheIsPrefix | include/chord.lru.cache.h:56-60 | a smaller pool holds the front part of a larger one (with src/chord.channel.pool.cc:25-27) |
| Recency.LargerCacheMissesLess | include/chord.lru.cache.h:56-60 | a larger pool never creates more channels (with src/chord.channel.pool.cc:25-27) |
| CachedValues.PutGives | include/chord.lru.cache.h:77-87 | after a put the key has the value given, and every other key still there has the one it had; with capacity 0 nothing is kept |
| CachedValues.TouchKeeps | include/chord.lru.cache.h:106-110 | a touch changes no value |
| CachedValues.ValueIsLastGiven | include/chord.lru.cache.h:56-93 | on any trace a key has a value iff it is among the most recently used ones, and it is the value of its last put or of the compute that last inserted it |
| LruCache.LRUCache.constructor | include/chord.lru.cache.h:29 | a new cache is empty |
| LruCache.LRUCache.Clear | include/chord.lru.cache.h:32-36 | nothing is left in list and map |
| LruCache.LRUCache.Exists | include/chord.lru.cache.h:102-104 | the map has a key iff the list has an entry for it |
| LruCache.LRUCache.Erase | include/chord.lru.cache.h:95-100 | the entry leaves list and map; the others keep their order |
| LruCache.LRUCache.Touch | include/chord.lru.cache.h:106-110 | the entry moves to the front, and the map still points at it |
| LruCache.LRUCache.Get | include/chord.lru.cache.h:89-93 | the value of the key, which moves to the front, or an exception |
| LruCache.LRUCache.Put | include/chord.lru.cache.h:77-87 | the entry goes to the front and the list is cut to the capacity, with map and list in agreement |
| LruCache.LRUCache.ComputeIfAbsent | include/chord.lru.cache.h:56-60 | the value is computed only if there is none, and becomes the most recently used one |

## Left out

- Remote calls: channels, deadlines, message copying, endpoint rewriting and header checks; a call reaches a live node or fails. The endpoint of a node plays no role in comparing nodes.
- Two handlers that run at the same time on one node.
- Repair.RepairsRing: needs the next live member among the fingers of every member. Of a stabilization that meets a live successor with a failed predecessor it is only known when it keeps that so, not where further ones lead.
- Acquaintance.SenderIsNoted: says nothing of a node whose successor has failed and none of whose fingers takes the sender; dropping the failed successor may then leave it without predecessor.
- Overlay.Overlay.Notify: where the code reads a missing successor, nothing is said of the signal; the update of the router is the same.
- Facade: re-joining after the loss of all successors, the index that `fix_fingers` takes next, the change of the node's own uuid after leaving. A join starts from an empty router.
- Members that join or leave while another join, leave or rebalancing is under way.
- Put: write errors and rollback.
- Metadata of the parent directory, directories, recursive delete, moves and shallow copies with a node reference.
- Rebalancing when a node joins or leaves, as far as it is done by the joining or leaving node itself; modelled is what its successor does on `on_predecessor_update` and `on_predecessor_fail`.
- Rebalancing of single copies (index 0 of 1), which takes the metadata-only path.
- `readsome` returning less than what is left of the file; the model reads up to the chunk size.
- RocksDB, the file system and the serialization: maps from uri to bytes and metadata. Of SHA-256 nothing is assumed, not even that different files have different digests.
- Scheduler timing: how late after its time a job starts is stated only through the deadline of the leader. Scheduling by a date string.
- Jobs.Safety: an exception thrown by a job, which ends the process, is not modelled.
- LruCache: the mutex; calls are taken one after the other. A mapping function that itself changes the cache.
- Signals, logging, options, UPnP, FUSE, the file monitor, uri parsing and printing: plumbing or easy members.
