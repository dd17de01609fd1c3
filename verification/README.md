# ConsensusPruning: a verified model

The repository is an IOTA-style ledger. Every vertex of its DAG approves two earlier
vertices, its left and right tip. Storage nodes insert vertices concurrently, keep a reverse
index and a cumulative weight, and periodically compute the list of vertices to prune.
Gateways keep a second, smaller DAG with its own weight rule and pruning. Around the two
sit a gossip broadcast, a discovery node that clusters its clients, a duplicate filter, a
signature codec and an application that checks stored sensor data against Merkle roots.

This project models those parts in Dafny and proves what they are for. `dafny verify
dfyconfig.toml` checks it.

| file | component | main results |
|---|---|---|
| `Dag.dfy` | vertices, tip paths, the insertion both node types make | path lemmas, acyclicity of an extended graph |
| `Compression.dfy` | prune-list compression and its depth-first check | with other handlers at work between any two lookups: the result does not depend on map order and the check is exact; it always succeeds if and only if the graph is acyclic; exactly when the list is an antichain, and exactly then it is least |
| `StorageDag.dfy` | verification and insertion at a storage node | a verified insert keeps the graph well kept if and only if the vertex is fresh, and weights exact if and only if the hash is new or genesis stands alone |
| `ConcurrentInserts.dfy`, `Settling.dfy`, `Sequential.dfy` | many inserts interleaved at lock granularity | weight conservation in every reachable state; no deadlock, bounded schedules, exact weights at rest; alone each handler is the sequential one, and at rest the graph holds exactly what was accepted |
| `GraphRuns.dfy` | insertions and increments as the lock orders them, repeated hashes included | compression works at every moment if and only if no arriving vertex had a tip from which its hash was already reachable |
| `PruneList.dfy` | the scan for old vertices | exactly which timestamps and clock drifts keep it tip-closed |
| `AdamPoint.dfy`, `PruneRound.dfy` | the Adam point and the whole pruning round | the weighted walks vertex by vertex, their counts and their panic; partial coverage; the round with other handlers before every lookup |
| `GatewayDag.dfy`, `WalkStarts.dfy` | the gateway's DAG | stack rewrite refines recursion; what each locked section does to whatever graph it finds; GetStart counts paths |
| `GatewaySteps.dfy`, `PruneRaces.dfy`, `WeightOrder.dfy` | the gateway's handlers interleaved at lock granularity, what can go wrong, and handlers one by one | the weight order in every reachable state; exactly when a deletion keeps a vertex below one it deletes, and exactly when it keeps any |
| `Gossip.dfy` | the storage-node broadcast | at most 2^m - 1 deliveries in any order, exactly that many when nothing is dropped, and for every m a network that reaches it; every connected entry of the list hears of the transaction |
| `Merkle.dfy`, `IhCheck.dfy` | the application's two checks | what equal roots over lists of any lengths say; exactly when the range check panics and what it reports, for missing and repeated chunks |
| `Der.dfy` | the signature codec | minimal INTEGERs, 72-byte bound, round trip |
| `Clusters.dfy`, `Overlay.dfy` | the discovery node | clusters partition the joins and stay within 8 to 16; the overlay is connected |
| `DuplicateRing.dfy` | the gateway's duplicate filter | a window over the last 100 accepted digests |

Conventions. A hash is a wrapped natural number; SHA-256 and JSON serialisation enter as
function parameters, and no collision resistance is assumed. Go's map iteration is an
arbitrary choice among the keys still present, `rand.Intn`, `rand.Perm` and `uuid.New` are
methods known only by their contracts, as is what other handlers do while the lock of the DAG
is free (`OtherHandlers`, known by a relation between the graph before and after); the draws of
the walks are a parameter, and each `time.Now()` of a scan is one value of a clock parameter.
A Go map that is passed on and written to is an object (`KeySet`, `Visits`), as is the DAG.
Where the source would panic the model says so in the result or states the precondition.

Where code and prose differ, the code is followed. A comment in the source speaks of
pruning vertices older than 30 minutes; the constant is ten. The compression removes a
vertex that is its own tip, so the survivors are the members that are not a tip of any
member, themselves included.

Results that qualify what one might expect of the code:

* The scan for old vertices can list a vertex and miss one below it: with a clock that moves
  during the scan (`MovingClockNotTipClosed`), with a timestamp whose age wraps around in 64
  bits (`WrappedAgeNotTipClosed`), and with a vertex stamped before the tip it approves, which
  no check on arrival looks at (`EarlyStampNotTipClosed`). `ClosedExactly` gives the condition
  on timestamps and clock drift, `ClosedExactlyIfApart` what it comes to before the year 2116:
  every vertex is stamped later than its tips by at least the drift. For a list with such a
  gap the compressed list can keep two comparable vertices, and then it is not the least one;
  `AntichainExactly` and `LeastExactly` say exactly when.
* A known hash inserted again over a vertex that reaches it closes a cycle, and the
  compression check then fails for some list (`KnownHashOverItself`);
  `CompressionWorksExactly` shows that nothing else makes it fail. A known hash inserted
  again, with whatever tips, miscounts weights, unless it is genesis with nothing over it
  (`AddedWeighedExactly`), and breaks the reverse index (`InsertWellKeptOnlyIfFresh`).
* The gateway releases its lock between the sections of a handler. While the increments of a
  vertex are pending it need not outweigh its approver (`PendingTipTies`), and `Prune` may
  then keep it, as it may keep genesis, below a vertex it deletes (`PendingMayBeKept`,
  `GenesisMayBeKept`); `KeptBelowExactly` shows that there is no other way. A hash that
  returns after its deletion keeps the order only if nothing above it has weight
  (`ReturnOrderedExactly`).
* Two Prunes that overlap can delete every candidate, because the second reads weight 0 for
  what the first has deleted (`TwoPrunesLoseAll`). `AnchorLeftExactly`: a deletion leaves a
  listed vertex if and only if none of its list has been deleted since its scan.
* The range check panics whenever its chunks, a closing first half put aside, do not end in a
  whole pair, even if other pairs are whole (`CheckExact`, `GapBeforeLastPanics`); a chunk
  missing between whole pairs goes unreported (`GapInsidePasses`), a missing intermediate hash
  counts as a match (`MissingHashAlwaysPasses`), and a chunk that occurs twice is paired with
  itself (`RepeatedChunkPanics`).
* The Merkle root does not see an odd last chunk (`LastOddChunkUnbound`), a zero leaf after an
  odd number of leaves (`PaddingIsInvisible`), or the difference between a list and any level
  of its tree (`LevelsShareRoot`). `RootBindsAcross` shows that, collisions and zero hashes
  aside, there is no other way for two lists to share a root.
* Reading back what was signed panics exactly for a hash of the wrong length
  (`SignedReadsBackExactly`).

## Model

| member | source | states |
|---|---|---|
| Compression.RemoveChildrenRecursive | StorageNode/Data_Handler/Data_Handler.go:177-198 | on any graph, cyclic or not, with other handlers acting before each lookup, the recursion ends; whatever it deletes was a tip of the parent or of a member, and leaves none of its own tips behind |
| Compression.RemoveChildrenFromPruneList | StorageNode/Data_Handler/Data_Handler.go:200-232 | for every graph, list, iteration order and whatever other handlers insert meanwhile, the result is, without repeats, exactly the members no member approves in the snapshot |
| Compression.AllRemoved | StorageNode/Data_Handler/Data_Handler.go:212-214 | once every survivor's tips are gone, exactly the approved members have been deleted |
| Compression.AddChildren | StorageNode/Data_Handler/Data_Handler.go:271-294 | ends on any graph; newly visited hashes are reachable from the argument in the snapshot and their tips are visited; the decompressed map is the visited part of the prune list |
| Compression.GenerateChildren | StorageNode/Data_Handler/Data_Handler.go:258-269 | the decompressed map holds exactly the prune-list members reachable from a root |
| Compression.VerifyCompression | StorageNode/Data_Handler/Data_Handler.go:296-315 | true if and only if every member of the prune list is reachable, in the snapshot, from the compressed list, whatever is inserted during the check |
| Compression.CompressedCovers | StorageNode/Data_Handler/Data_Handler.go:234-244 | on an acyclic graph the compressed list covers the whole prune list |
| Compression.SucceedsExactlyIfAcyclic | StorageNode/Data_Handler/Data_Handler.go:200-244 | the check succeeds for every list of graph keys if and only if the graph has no cycle |
| Compression.CompressedAntichain | StorageNode/Data_Handler/Data_Handler.go:200-232 | for a tip-closed prune list no member of the compressed list reaches another |
| Compression.AntichainExactly | StorageNode/Data_Handler/Data_Handler.go:200-232 | for any list on an acyclic graph: an antichain if and only if every member reached by another is a direct tip of some member |
| Compression.LeastExactly | StorageNode/Data_Handler/Data_Handler.go:200-232 | on an acyclic graph the compressed list lies in every covering subset of the list if and only if it is an antichain |
| Compression.SkippedVertexKeepsBoth | StorageNode/Data_Handler/Data_Handler.go:200-232 | a concrete list with a gap whose compression keeps two comparable vertices |
| PruneList.GetTxToBePruned | StorageNode/Data_Handler/Data_Handler.go:157-175 | lists, without repeats, exactly the vertices whose age exceeds five minutes at the time they were looked at |
| PruneList.ClosedExactly | StorageNode/Data_Handler/Data_Handler.go:160-171 | for all 64-bit timestamps and every drift d: the scan is tip-closed under all clocks whose readings differ by at most d if and only if along every edge the stamps agree, a condition on the two stamps and d |
| PruneList.ClosedExactlyIfApart | StorageNode/Data_Handler/Data_Handler.go:160-171 | for stamps in [0, 2^62) this holds if and only if every vertex is stamped at least d after the in-graph tips it approves |
| PruneList.LeastWithinDrift | StorageNode/Data_Handler/Data_Handler.go:157-232 | under that condition, for every such clock, the compressed list of the scan is an antichain and lies in every subset that covers the old vertices |
| PruneList.MovingClockNotTipClosed | StorageNode/Data_Handler/Data_Handler.go:165-171 | reading the clock per vertex can list a vertex and miss its equally old tip |
| PruneList.WrappedAgeNotTipClosed | StorageNode/Data_Handler/Data_Handler.go:166 | so can an age that wraps around |
| PruneList.EarlyStampNotTipClosed | StorageNode/Data_Handler/Data_Handler.go:371-427 | and so can a vertex stamped before its tip, with one clock reading |
| AdamPoint.GetNeighbourWithProbability | StorageNode/Data_Handler/Data_Handler.go:76-106 | with other handlers before each weight read: panics exactly when the weights read add up to less than zero; otherwise picks the member of a non-empty list at which the running total passes the number drawn, and one read without positive weight only if it comes first |
| AdamPoint.RandomWalk | StorageNode/Data_Handler/Data_Handler.go:109-131 | with other handlers before each lookup: visits, each counted once more, a walk of at most the given length from the start, every step picked at the vertex before, that ends early only where no neighbour is listed; over true neighbour lists every vertex of it reaches the start in the graph at the end; a panic means readings that add up to less than zero |
| AdamPoint.MetAbove | StorageNode/Data_Handler/Data_Handler.go:109-131 | one step up, read at one time, and a later climb from there make one climb, and the tip path back down holds in the later graph |
| AdamPoint.NoNegativeTotal | StorageNode/Data_Handler/Data_Handler.go:76-93 | if no weight is ever negative no walk panics |
| AdamPoint.CountVisits | StorageNode/Data_Handler/Data_Handler.go:134-141 | the given number of such walks from every entry, of 16 vertices at most, and for every vertex the number of times it occurs in them |
| AdamPoint.MostVisited | StorageNode/Data_Handler/Data_Handler.go:143-153 | a vertex with the most visits, for any iteration order |
| AdamPoint.FindAdamPoint | StorageNode/Data_Handler/Data_Handler.go:134-154 | unless a walk panics: none exactly for an empty list or no iterations; otherwise a vertex that occurs in those walks most often |
| AdamPoint.DiamondCounts | StorageNode/Data_Handler/Data_Handler.go:109-154 | where the walks have no choice: five from each of two vertices under one count 10 for it and 5 for each of them, whatever is drawn |
| AdamPoint.AdamCoversOne | StorageNode/Data_Handler/Data_Handler.go:246-253 | over true neighbour lists the Adam point reaches at least one entry and is in the graph |
| PruneRound.CompressOldOnes | StorageNode/Data_Handler/Data_Handler.go:235-244 | the first half of the round: scan, compression and its check, exact for the graph of the scan |
| PruneRound.CheckAdamPoint | StorageNode/Data_Handler/Data_Handler.go:246-253 | the second half: the vertex five walks from every entry meet most often, and its check, exact for the graph at the end |
| PruneRound.CoversLater | StorageNode/Data_Handler/Data_Handler.go:258-315 | whether vertices that are there cover a list does not depend on later insertions |
| PruneRound.GeneratePruneList | StorageNode/Data_Handler/Data_Handler.go:234-256 | on an acyclic graph with closed tips and true neighbour lists, with other handlers inserting before any lookup: the first check succeeds, the list is the exact compression of the old vertices of the graph the round began with, and unless a walk panics the Adam point is the vertex five walks from every entry of it meet most often, covers an entry, and the second check is exact, both in the graph at the end |
| PruneRound.AdamCheckMeaning | StorageNode/Data_Handler/Data_Handler.go:249-253 | the second check succeeds exactly if the Adam point reaches every entry |
| PruneRound.CycleFailsCheck | StorageNode/Data_Handler/Data_Handler.go:200-256 | on a two-cycle the compression is empty and the check fails |
| StorageDag.VerifyVertex | StorageNode/Data_Handler/Data_Handler.go:371-427 | accepts exactly if signature and proof of work hold and both tips are in the graph |
| StorageDag.GetChildren | StorageNode/Data_Handler/Data_Handler.go:329-355 | adds exactly the hashes collected within the given number of hops |
| StorageDag.ChildrenAreReached | StorageNode/Data_Handler/Data_Handler.go:329-355 | those are exactly the hashes a tip path of length 1 to n reaches |
| StorageDag.UpdateWeightOfChildren | StorageNode/Data_Handler/Data_Handler.go:317-327 | raises by one exactly the listed vertices that are in the graph, in any order |
| StorageDag.UpdateWeight | StorageNode/Data_Handler/Data_Handler.go:357-368 | raises exactly the vertices within 16 hops below and changes nothing else of any vertex |
| StorageDag.AddToDAG | StorageNode/Data_Handler/Data_Handler.go:430-463 | the new graph is the insertion followed by the increments |
| StorageDag.AddedExactly | StorageNode/Data_Handler/Data_Handler.go:430-463 | field by field: the vertex as it came, its hash listed once more at each tip, one more weight for what a path of 1 to 16 tip hops leads to, and every other field of every vertex as it was |
| StorageDag.HandleTransactions | StorageNode/P2P_Manager/storage_node.go:436-449 | inserts exactly the verified vertices and leaves the graph alone otherwise |
| StorageDag.InitDag | StorageNode/Data_Handler/Data_Handler.go:504-513 | leaves genesis alone in a well kept graph with exact weights |
| StorageDag.InsertIndexOk | StorageNode/Data_Handler/Data_Handler.go:438-456 | after a verified insert of a fresh vertex Neighbours lists each approver exactly once and nothing else |
| StorageDag.InsertWellKept | StorageNode/Data_Handler/Data_Handler.go:410-456 | such an insert keeps tip closure, acyclicity, the index and non-negative weights |
| StorageDag.InsertWellKeptOnlyIfFresh | StorageNode/Data_Handler/Data_Handler.go:430-456 | a verified insert keeps the graph well kept if and only if the hash is new and not zero and the vertex arrives without neighbours and with a non-negative weight |
| StorageDag.StaleApproval | StorageNode/Data_Handler/Data_Handler.go:436-456 | inserting a hash a second time breaks the reverse index |
| StorageDag.AddedWellKept | StorageNode/Data_Handler/Data_Handler.go:430-463 | a whole insert of a fresh vertex keeps the graph well kept |
| StorageDag.AddedWeighed | StorageNode/Data_Handler/Data_Handler.go:317-368 | it keeps every weight equal to the arrival weight plus the number of vertices at most 16 hops above |
| StorageDag.AddedWeighedExactly | StorageNode/Data_Handler/Data_Handler.go:317-463 | a blank verified vertex leaves every weight exact if and only if its hash is new, or it is genesis again with nothing over it; the tips it brings do not matter |
| StorageDag.OldTipContributors | StorageNode/Data_Handler/Data_Handler.go:329-368 | with other tips for h, an old tip of h gains no contributor, and loses h unless the increments of h reach it again |
| Dag.InsertKeeps | StorageNode/Data_Handler/Data_Handler.go:435-456 | the locked insertion changes no other vertex except for one appended approver at each tip |
| Dag.InsertOwn | StorageNode/Data_Handler/Data_Handler.go:435-456 | the inserted vertex keeps its own fields |
| Dag.RaiseAllExactly | StorageNode/Data_Handler/Data_Handler.go:319-326 | increments change no field but the weight, and that by one |
| Dag.ExtendAcyclic | StorageNode/Data_Handler/Data_Handler.go:410-436 | a vertex nothing points to, with other vertices as tips, closes no cycle |
| ConcurrentInserts.ReadKeeps | StorageNode/Data_Handler/Data_Handler.go:329-355 | a read under the lock leaves collected and still-to-collect hashes the same in total |
| ConcurrentInserts.CommitKeeps | StorageNode/Data_Handler/Data_Handler.go:435-459 | the locked insertion keeps the invariant of all jobs in flight |
| ConcurrentInserts.BumpKeeps | StorageNode/Data_Handler/Data_Handler.go:319-326 | one locked increment moves exactly one vertex from pending to counted |
| ConcurrentInserts.StepKeeps | StorageNode/Data_Handler/Data_Handler.go:317-463 | so does every step |
| ConcurrentInserts.RunKeeps | StorageNode/Data_Handler/Data_Handler.go:317-463 | and every schedule |
| ConcurrentInserts.WeightsConserved | StorageNode/Data_Handler/Data_Handler.go:317-368 | in every state any interleaving reaches, a weight is the arrival weight plus the number of vertices that reach it by a tip path of length 1 to 16 and whose increment is not pending; the graph is well kept |
| ConcurrentInserts.QuiescentWeighed | StorageNode/Data_Handler/Data_Handler.go:317-368 | with nobody at work the weights are the sequential ones |
| ConcurrentInserts.ScheduleIndependent | StorageNode/Data_Handler/Data_Handler.go:317-368 | two schedules that bring the same vertices to rest leave the same weights |
| ConcurrentInserts.CompressionSucceeds | StorageNode/Data_Handler/Data_Handler.go:234-244 | after any schedule of verified inserts the graph is tip-closed and acyclic and the compression check succeeds for any list |
| Sequential.AloneIsSequential | StorageNode/Data_Handler/Data_Handler.go:371-463 | in any state a new blank vertex can be handled without interruption: both tips there, to the graph of the sequential insert and a finished job; a tip missing, to no change at all |
| Sequential.VerifyExactly | StorageNode/Data_Handler/Data_Handler.go:410-427 | the tip check drops a vertex exactly when a tip is missing, lets it go on otherwise, and changes nothing else |
| Sequential.AcceptedInserted | StorageNode/Data_Handler/Data_Handler.go:430-463 | in every run, once everyone is done an accepted vertex is in the graph with the transaction it came with |
| Sequential.QuiescentGraph | StorageNode/Data_Handler/Data_Handler.go:371-463 | at rest the graph holds genesis and exactly the vertices accepted |
| GraphRuns.StepAcyclicExactly | StorageNode/Data_Handler/Data_Handler.go:430-456 | any insertion into an acyclic graph, of a new or a known hash with any tips, leaves it acyclic if and only if neither tip already reaches the hash |
| GraphRuns.CompressionWorksExactly | StorageNode/Data_Handler/Data_Handler.go:200-463 | over every sequence of insertions and increments, compression passes its check on all lists at every moment if and only if every insertion met that condition |
| GraphRuns.KnownHashOverItself | StorageNode/Data_Handler/Data_Handler.go:430-456 | three arrivals with all tips found after which the check fails: a known hash over a vertex above it |
| GraphRuns.OnRecordIsClear | StorageNode/Data_Handler/Data_Handler.go:410-456 | a new hash, and a known one with the tips on record, always meets the condition |
| GraphRuns.StepKeeps | StorageNode/Data_Handler/Data_Handler.go:430-463 | such a step keeps tip closure and acyclicity, loses no vertex and changes no tip |
| GraphRuns.CompressionSucceeds | StorageNode/Data_Handler/Data_Handler.go:200-244 | so the check succeeds at every moment of every run from genesis in which known hashes are inserted again with their tips, as happens once the duplicate pool is full |
| GraphRuns.OthersKeep | StorageNode/Data_Handler/Data_Handler.go:177-315 | what handlers do while a pruning round has released the lock keeps what the round relies on |
| GraphRuns.ConcurrentSound | StorageNode/Data_Handler/Data_Handler.go:234-256 | every state the concurrent handlers reach is one a pruning round may begin in |
| GraphRuns.HandlersStep | StorageNode/Data_Handler/Data_Handler.go:317-463 | every locked section of the concurrent handlers is such a step or leaves the graph alone |
| Settling.StepUsesWork | StorageNode/Data_Handler/Data_Handler.go:317-463 | every step but an arrival strictly lowers the work the jobs have left |
| Settling.SchedulesEnd | StorageNode/Data_Handler/Data_Handler.go:317-463 | without arrivals no schedule is longer than that work |
| Settling.NoDeadlock | StorageNode/Data_Handler/Data_Handler.go:317-463 | while some job is unfinished a step is possible |
| Settling.MaximalScheduleWeighed | StorageNode/Data_Handler/Data_Handler.go:317-463 | a schedule that cannot be continued ends with every weight exact |
| GatewayDag.RecursiveCollectsBelow | LSDI_Gateway/Data_Handler/Data_Handler.go:403-426 | on an acyclic graph the recursive collector ends and returns exactly the in-graph vertices below h with their current values |
| GatewayDag.UpdateWeightsHandlerIterative | LSDI_Gateway/Data_Handler/Data_Handler.go:428-464 | the stack rewrite ends on every graph and returns exactly those |
| GatewayDag.IterativeRefinesRecursive | LSDI_Gateway/Data_Handler/Data_Handler.go:403-464 | on an acyclic graph a map meets the one's contract if and only if it is the other's result |
| GatewayDag.UpdateWeights | LSDI_Gateway/Data_Handler/Data_Handler.go:466-484 | raises by one exactly the vertices below h |
| GatewayDag.UpdatedExactly | LSDI_Gateway/Data_Handler/Data_Handler.go:466-484 | field by field: one more weight for what h reaches in the graph, everything else as it was |
| GatewayDag.InsertVertex | LSDI_Gateway/Data_Handler/Data_Handler.go:849-876 | the locked insertion with both neighbour appends |
| GatewayDag.AddVtxToDAG | LSDI_Gateway/Data_Handler/Data_Handler.go:849-883 | an insertion, the increments on what others have made of that graph by then, and a prune with threshold 10 of what they have made of that |
| GatewayDag.HandleTxConfirmation | LSDI_Gateway/P2P_Manager/gateway.go:265-296 | sets the flag of an in-graph vertex and forwards the acknowledgement exactly the first time; puts an orphan, confirmed, into what others have made of the graph by the second lock; ignores any other hash |
| GatewayDag.ConfirmedExactly | LSDI_Gateway/P2P_Manager/gateway.go:265-279 | a confirmation changes no field but the flag |
| GatewayDag.ScanCandidates | LSDI_Gateway/Data_Handler/Data_Handler.go:506-518 | lists exactly the confirmed vertices of at least the threshold's weight that are older than ten minutes, in any order |
| GatewayDag.FindLightest | LSDI_Gateway/Data_Handler/Data_Handler.go:527-534 | a listed hash of least weight, a hash no longer in the graph counting as 0 |
| GatewayDag.DeleteOthers | LSDI_Gateway/Data_Handler/Data_Handler.go:536-542 | deletes exactly the other candidates |
| GatewayDag.DeleteTimedOut | LSDI_Gateway/Data_Handler/Data_Handler.go:549-559 | deletes exactly the unconfirmed vertices past ten minutes |
| GatewayDag.WithoutExactly | LSDI_Gateway/Data_Handler/Data_Handler.go:536-556 | a deletion leaves every other vertex as it is |
| GatewayDag.Prune | LSDI_Gateway/Data_Handler/Data_Handler.go:504-561 | nothing with at most one candidate, not even the time-out scan; otherwise, on what others have made of the graph, all listed hashes but one of least weight go, and on what they have made of that the timed-out vertices |
| GatewaySteps.CommitKeeps | LSDI_Gateway/Data_Handler/Data_Handler.go:851-876 | the locked insertion of a new vertex, its tips deleted meanwhile or not, keeps the order and acyclicity |
| GatewaySteps.UpdateKeeps | LSDI_Gateway/Data_Handler/Data_Handler.go:466-484 | the increments, on whatever graph is there by then, keep the order and settle the vertex |
| GatewaySteps.WithoutKeeps | LSDI_Gateway/Data_Handler/Data_Handler.go:525-559 | so does every deletion, of listed or of timed-out vertices |
| GatewaySteps.StepKeeps | LSDI_Gateway/Data_Handler/Data_Handler.go:466-561 | and every locked section of every handler |
| GatewaySteps.TipsOutweighApprovers | LSDI_Gateway/Data_Handler/Data_Handler.go:466-484 | in every state any interleaving reaches, an in-graph tip weighs at least what its approver weighs, and more unless it is genesis or its own increments are pending; there is no cycle |
| GatewaySteps.KeptBelowExactly | LSDI_Gateway/Data_Handler/Data_Handler.go:525-542 | in every such state and for every list: a deletion can keep a vertex below one it deletes if and only if genesis, or a vertex with its increments pending, is a lightest one of the list and a listed vertex above it weighs the same |
| GatewaySteps.AnchorLeftExactly | LSDI_Gateway/Data_Handler/Data_Handler.go:525-542 | the deletion of any Prune with a positive threshold leaves a listed vertex if and only if every listed hash is still there, and then exactly the one it keeps |
| GatewaySteps.DeletedForever | LSDI_Gateway/Data_Handler/Data_Handler.go:536-556 | a deleted hash stays away, so a listed hash is missing exactly if it was deleted since the scan |
| GatewaySteps.ScanExactly | LSDI_Gateway/Data_Handler/Data_Handler.go:506-524 | a scan step lists what the source lists if that is two vertices at least, and changes nothing else |
| GatewaySteps.DeleteExactly | LSDI_Gateway/Data_Handler/Data_Handler.go:536-542 | a deletion step takes what is listed but the hash kept, and nothing else |
| GatewaySteps.SweepExactly | LSDI_Gateway/Data_Handler/Data_Handler.go:549-556 | a time-out step takes what is unconfirmed and past ten minutes, and nothing else |
| GatewaySteps.ReturnOrderedExactly | LSDI_Gateway/Data_Handler/Data_Handler.go:851-876 | inserting a deleted hash again keeps the order if and only if no in-graph vertex above it has any weight |
| PruneRaces.PendingTipTies | LSDI_Gateway/Data_Handler/Data_Handler.go:851-881 | genesis, a vertex over it with its increments pending and one over that: the middle one does not outweigh its approver |
| PruneRaces.GenesisMayBeKept | LSDI_Gateway/Data_Handler/Data_Handler.go:504-542 | at threshold 10, ten insertions in a chain and a confirmation after which a deletion may keep genesis and delete the vertex above it |
| PruneRaces.PendingMayBeKept | LSDI_Gateway/Data_Handler/Data_Handler.go:504-542 | with the first increments pending, eleven insertions after which it may keep that vertex and delete the one above it |
| PruneRaces.ChainHasNoCandidates | LSDI_Gateway/Data_Handler/Data_Handler.go:504-518 | no earlier Prune finds a candidate |
| PruneRaces.TwoPrunesLoseAll | LSDI_Gateway/Data_Handler/Data_Handler.go:504-542 | two Prunes with the same list, after which no listed vertex is left |
| WeightOrder.RunIsSchedule | LSDI_Gateway/Data_Handler/Data_Handler.go:848-884 | every run of whole insertions, confirmations and prunes is a schedule of their locked sections |
| WeightOrder.QuietPrune | LSDI_Gateway/Data_Handler/Data_Handler.go:504-561 | a Prune nobody interferes with deletes all candidates but a lightest one, and the timed-out vertices |
| WeightOrder.AddVtxAlone | LSDI_Gateway/Data_Handler/Data_Handler.go:849-883 | AddVtxToDAG with nobody else at work leaves the insertion with its increments, pruned once with threshold 10 |
| WeightOrder.TipsOutweighApprovers | LSDI_Gateway/Data_Handler/Data_Handler.go:848-884 | with handlers one by one an in-graph tip always weighs more than its approver, and genesis at least as much |
| WeightOrder.KeptNotBelowDeleted | LSDI_Gateway/Data_Handler/Data_Handler.go:525-542 | then a lightest member of a list that another member reaches is genesis, and the two weigh the same |
| WeightOrder.KeptBelowExactly | LSDI_Gateway/Data_Handler/Data_Handler.go:504-542 | then Prune can keep a vertex below one it deletes if and only if genesis is a lightest candidate and a candidate above it has its weight |
| WeightOrder.PruneKeepsAnchor | LSDI_Gateway/Data_Handler/Data_Handler.go:504-561 | then a prune that deletes leaves exactly one candidate; a deleted one reached it only if it is genesis and they weighed the same |
| WeightOrder.RunAcyclic | LSDI_Gateway/Data_Handler/Data_Handler.go:848-884 | the graph of every run is acyclic |
| WalkStarts.StartsMatchPaths | LSDI_Gateway/Data_Handler/Data_Handler.go:168-198 | entry i of the result is the end of the i-th left/right-labelled path to a start |
| WalkStarts.PathsComplete | LSDI_Gateway/Data_Handler/Data_Handler.go:168-198 | those paths are all labelled paths to a start, each once, and there is one |
| WalkStarts.PathsToMeaning | LSDI_Gateway/Data_Handler/Data_Handler.go:186-196 | the counted set is exactly the set of labelled paths to the start |
| WalkStarts.GetStartCountsPaths | LSDI_Gateway/Data_Handler/Data_Handler.go:168-198 | each start occurs once per labelled path to it, and the result is not empty |
| WalkStarts.GetStartFindsStarts | LSDI_Gateway/Data_Handler/Data_Handler.go:168-198 | the result holds exactly the reachable vertices with neither tip in the graph |
| Gossip.StorageNode.GnBroadcast | StorageNode/P2P_Manager/storage_node.go:335-360 | sends exactly one message to every connected entry after the message number, addressed to that entry and numbered by its position, in order |
| Gossip.StorageNode.HandleMessage | StorageNode/P2P_Manager/storage_node.go:481-566 | forwards new, valid transactions only, to every connected entry after the number received; one from a gateway or from another cluster goes to every connected entry, and only a gateway's is acknowledged |
| Gossip.StorageNode.BroadcastTransaction | StorageNode/P2P_Manager/storage_node.go:572-581 | sends to every connected entry, numbered by position |
| Gossip.SendsLoad | StorageNode/P2P_Manager/storage_node.go:335-360 | a broadcast from position i can cause at most 2^(m-i) - 1 deliveries, exactly that if nobody is missing |
| Gossip.DeliverLoad | StorageNode/P2P_Manager/storage_node.go:481-497 | every delivery lowers the sum of 2^(m-1-k) over messages in flight, whatever the receiver decides |
| Gossip.GossipBounded | StorageNode/P2P_Manager/storage_node.go:335-360 | one gateway transaction causes at most 2^m - 1 deliveries in any order, with no use of duplicate detection |
| Gossip.FloodIsExact | StorageNode/P2P_Manager/storage_node.go:335-360 | if every node forwards to m connected nodes a drained run made exactly 2^m - 1 deliveries |
| Gossip.FloodDrains | StorageNode/P2P_Manager/storage_node.go:335-360 | from every state of such a network some order of deliveries, everyone forwarding, drains it |
| Gossip.BoundIsMet | StorageNode/P2P_Manager/storage_node.go:335-360 | for every m a fully connected network of m + 1 nodes and a run of it with exactly 2^m - 1 deliveries |
| Gossip.EveryoneHears | StorageNode/P2P_Manager/storage_node.go:335-360 | in every run that empties the network, with any order and any drops, every connected entry of the origin's list receives the transaction |
| Gossip.PassedOnIsHeard | StorageNode/P2P_Manager/storage_node.go:481-497 | and so does every connected entry after the received number in the list of a node that passes it on |
| Merkle.GenerateMerkleRoot | IOT_App/app_main.go:288-319 | the loop builds each level and the recursion returns the root of the level-by-level definition |
| Merkle.NextLevel | IOT_App/app_main.go:295-316 | half as many hashes, rounded up, each of its pair, the odd last one paired with zero |
| Merkle.NextLevelExactly | IOT_App/app_main.go:295-316 | entry i is the hash of the entries 2i and 2i + 1 below it, in this order |
| Merkle.RootIsTop | IOT_App/app_main.go:288-294 | the root is the one entry of the top level, and zero for an empty list |
| Merkle.RootBinds | IOT_App/app_main.go:288-319 | equal roots over equally many leaves mean equal leaves or two different pairs at one place of the trees that hash alike |
| Merkle.LevelsShareRoot | IOT_App/app_main.go:288-319 | every level of a tree, taken as a list of leaves, has the same root |
| Merkle.SameDepthBinds | IOT_App/app_main.go:288-319 | equal roots of two trees of one depth mean the same leaves up to padding, a collision within the trees, or a pair in them that hashes to zero |
| Merkle.RootBindsAcross | IOT_App/app_main.go:288-319 | equal roots over lists of any two lengths mean that one list is, up to padding, a level of the other one's tree, or a collision or a zero pair |
| Merkle.SameUpToPaddingShareRoot | IOT_App/app_main.go:288-319 | and every such list does have that root |
| Merkle.PaddingIsInvisible | IOT_App/app_main.go:299-302 | a zero leaf after an odd number of leaves leaves the root unchanged |
| Merkle.VerifyMH | IOT_App/app_main.go:321-371 | panics exactly on no chunks at all; otherwise accepts exactly if the stored root is the root over the intermediate hashes of consecutive chunks |
| Merkle.SmallSessions | IOT_App/app_main.go:325-357 | the root of two chunks is the hash of their two hashes, in order |
| Merkle.SessionBinds | IOT_App/app_main.go:321-371 | equal session roots over n chunks bind the records of the first 2*(n/2), up to an explicit collision |
| Merkle.LastOddChunkUnbound | IOT_App/app_main.go:333-341 | the last of an odd number of chunks can be anything |
| IhCheck.SortSlice | IOT_App/app_main.go:169-175 | sorted by sequence and position, a permutation of what was there |
| IhCheck.ComparePairs | IOT_App/app_main.go:201-278 | the loop with its step back on a mismatch, including running off the end |
| IhCheck.VerifyIH | IOT_App/app_main.go:156-286 | sorts in place and returns the verdict of the check on the sorted data |
| IhCheck.LoopPanics | IOT_App/app_main.go:201-224 | over any list the loop runs off the end exactly when the last stretch of one sequence has an odd number of entries |
| IhCheck.LoopReports | IOT_App/app_main.go:201-278 | when it does not, it reports exactly the sequences of the pairs, counted from the start of their stretch, that do not match |
| IhCheck.CheckAlways | IOT_App/app_main.go:156-286 | both for the whole check and any list, chunks repeated or missing |
| IhCheck.SortedPanics | IOT_App/app_main.go:156-286 | so a sorted list panics exactly when trimming leaves nothing or an odd number of chunks of the last sequence |
| IhCheck.PassedPairBinds | IOT_App/app_main.go:225-253 | a passed check binds the records of every pair it compared with a stored hash, up to an explicit collision |
| IhCheck.MissingHashAlwaysPasses | IOT_App/app_main.go:249-252 | with nothing stored any list passes unless it panics |
| IhCheck.RepeatedChunkPanics | IOT_App/app_main.go:201-224 | a first half twice and its second half: the copies are taken for a pair, then a panic |
| IhCheck.SortedNumbered | IOT_App/app_main.go:169-175 | a gap-free run in any order is numbered consecutively once sorted |
| IhCheck.TrimLeavesWholePairs | IOT_App/app_main.go:177-182 | over a gap-free run trimming leaves exactly the whole pairs, or nothing exactly when there is none |
| IhCheck.ScanPanics | IOT_App/app_main.go:201-224 | from the first chunk of any sequence on, the loop runs off the end exactly when the last chunk is the only one of its sequence |
| IhCheck.ScanReports | IOT_App/app_main.go:201-278 | when it does not, it reports exactly the whole sequences that differ, through any mismatch |
| IhCheck.TrimKeepsTampered | IOT_App/app_main.go:177-182 | neither chunk that trimming drops belongs to a whole pair |
| IhCheck.CheckExact | IOT_App/app_main.go:156-286 | for every ordering of distinct chunks, any of them missing: panics exactly when, a closing first half put aside, the chunks in order do not end in a whole pair; otherwise the ascending list of exactly the whole sequences whose stored hash differs |
| IhCheck.NoAnswerFails | IOT_App/app_main.go:176-198 | without an answer of the storage node it panics only on fewer than two chunks or a second half followed by a first one, and fails otherwise |
| IhCheck.GapFreePanics | IOT_App/app_main.go:156-286 | on a gap-free run it panics exactly when no sequence has both its chunks |
| IhCheck.GapBeforeLastPanics | IOT_App/app_main.go:201-212 | chunks (1,0), (1,1), (2,1): a panic although a whole pair is there |
| IhCheck.GapInsidePasses | IOT_App/app_main.go:212-224 | chunks (1,0), (1,1), (2,0), (3,0), (3,1) pass when the stored hashes of 1 and 3 match |
| IhCheck.PassedBinds | IOT_App/app_main.go:225-253 | for any distinct chunks a passed check binds the records of every whole sequence with a stored hash, up to an explicit collision |
| IhCheck.MissingHashPasses | IOT_App/app_main.go:249-252 | with nothing stored any distinct chunks pass or panic, and pass exactly when they end whole |
| IhCheck.LoneHalfPanics | IOT_App/app_main.go:176-183 | a single chunk makes the source index an empty slice |
| Der.CanonicalizeInt | LSDI_Gateway/Crypt_key_Manager/Crypt_key_Manager.go:169-180 | returns non-negative octets, as short as section 8.3 of ITU-T X.690 asks, that denote the number |
| Der.ContentsExact | LSDI_Gateway/Crypt_key_Manager/Crypt_key_Manager.go:168-180 | they are non-negative and minimal as section 8.3 of ITU-T X.690 asks, denote the number, and are the only such octets |
| Der.PointsToDER | LSDI_Gateway/Crypt_key_Manager/Crypt_key_Manager.go:89-107 | the bytes written at computed offsets are the SEQUENCE of the two INTEGERs |
| Der.DerFits | LSDI_Gateway/Crypt_key_Manager/Crypt_key_Manager.go:94-104 | for 256-bit values at most 72 bytes, with exact length octets |
| Der.BigEndian | LSDI_Gateway/Crypt_key_Manager/Crypt_key_Manager.go:168-180 | the last octet is the least significant one |
| Der.Sign | LSDI_Gateway/Crypt_key_Manager/Crypt_key_Manager.go:109-119 | 72 bytes: the encoding followed by zeros, or zeros only for a hash of the wrong length |
| Der.PointsFromDER | LSDI_Gateway/Crypt_key_Manager/Crypt_key_Manager.go:18-32 | given an encoding of two 256-bit numbers with anything after it, returns those numbers |
| Der.DerRoundTrip | LSDI_Gateway/Crypt_key_Manager/Crypt_key_Manager.go:18-119 | reading the padded signature returns exactly the two numbers |
| Der.DerInjective | LSDI_Gateway/Crypt_key_Manager/Crypt_key_Manager.go:89-119 | different signatures have different padded encodings |
| Der.SignedReadsBackExactly | LSDI_Gateway/Crypt_key_Manager/Crypt_key_Manager.go:18-127 | for 256-bit values, reading what Sign returns panics if and only if the hash does not have 32 bytes, and gives the two numbers otherwise |
| Clusters.DiscoveryNode.GetGateways | DiscoveryNode/discovery_node.go:435-501 | a join adds exactly the newcomer, with its token in a slot of one cluster; its neighbours, at most 3 and at least one unless it is the first, are other members of that cluster and come with their tokens; node numbers count earlier joins |
| Clusters.DiscoveryNode.JoinCluster | DiscoveryNode/discovery_node.go:455-499 | the same for the cluster drawn, split first if it is full; the empty-cluster branch is unreachable |
| Clusters.DiscoveryNode.SplitCluster | DiscoveryNode/discovery_node.go:336-361 | two clusters of 8 numbered from 0, with the same addresses in total |
| Clusters.DiscoveryNode.MoveHalf | DiscoveryNode/discovery_node.go:337-348 | moves half the members for any permutation drawn |
| Clusters.DiscoveryNode.Renumber | DiscoveryNode/discovery_node.go:350-360 | renumbers the rest from 0 in any order and loses nobody |
| Clusters.DiscoveryNode.AssignGateway | DiscoveryNode/discovery_node.go:259-320 | up to three members from distinct slots, with exactly their tokens and the newcomer's own if it is among them; no missing slot is read |
| Clusters.DiscoveryNode.FewClusters | DiscoveryNode/discovery_node.go:435-501 | one cluster at most, or eight joins for each |
| Clusters.CreateSocket | DiscoveryNode/discovery_node.go:69-110 | for every sequence of joins the clusters partition the addresses as a multiset and stay few |
| Overlay.DiscoveryNode.ChordHarrary | DiscoveryNode/discovery_node.go:147-194 | for any permutation node n gets distinct earlier nodes, at most 3, at least 1 for node 2 and at least 2 from node 3 on; Gn_order lists exactly the keys of Gn |
| Overlay.OverlayConnected | DiscoveryNode/discovery_node.go:175-194 | any two storage nodes are connected by links in either direction |
| DuplicateRing.TxPoolSet.DuplicateMessage | LSDI_Gateway/P2P_Manager/gateway.go:74-106 | true exactly if the digest is among the last 100 accepted; set and ring agree, entries are distinct |
| DuplicateRing.WindowTurns | LSDI_Gateway/P2P_Manager/gateway.go:92-97 | overwriting the oldest entry and stepping on, wrapping at 100, moves the window by one |
| DuplicateRing.ReplaceOldest | LSDI_Gateway/P2P_Manager/gateway.go:90-96 | the overwritten digest leaves the set and nothing else does |

## Left out

- Sockets, JSON framing, HTTP handlers, image generation, logging, the SQL stores and the deployment scripts: input and output without a core to prove.
- ECDSA, SHA-256, UUIDs and curve point marshalling are libraries: their answers are parameters or arbitrary values.
- Proof of work and the random tip selection of the gateway are probabilistic searches.
- Der.PointsFromDER: asn1.Unmarshal is the short-form reader only; long-form lengths and multi-byte tags give NotShortForm, and the capacity of the byte slice is taken to end with the slice.
- The second signature codec of the storage node duplicates the gateway's, and the half-split encoding of the application is another format.
- StorageDag.AddToDAG: weights are unbounded integers, so a weight past 2^63 - 1 does not wrap as Go's int would.
- ConcurrentInserts.WeightsConserved: assumes that no arriving hash is in the graph or in flight already, because a repeated one makes the weights inexact (StorageDag.AddedWeighedExactly); it reads the vertex's own entry together with its insertion although the source does so just after releasing the lock, and nothing another insert does changes what is read.
- PruneRound.GeneratePruneList: other handlers insert known hashes only with the tips on record, and vertices without neighbours.
- AdamPoint.FindAdamPoint: only partial coverage is claimed, because the walk is a heuristic and the source reports when it fails; that a neighbour's name may be no hash at all is not modelled.
- GatewayDag.AddVtxToDAG: starts where both checks have passed; uploads of orphans, whose own tips may arrive after them, downloaded graphs and the gateway's own AddToDAG, which raises its two tips only, are not modelled.
- GatewaySteps.StepKeeps: takes every hash to be inserted once, because one that returns can break the order (GatewaySteps.ReturnOrderedExactly), and every vertex to arrive with weight 0; an orphan put into the graph by its confirmation never gets increments and is no step.
- Gossip.StorageNode.BroadcastTransaction: the adjacent and routing broadcasts are omitted, because the discovery node hands out empty lists for both; pings that would extend Gn_order during a broadcast are not modelled.
- Gossip.StorageNode.HandleMessage: the storage node's own duplicate pool is an arbitrary answer, because once it is full it stops recording new hashes.
- Clusters.DiscoveryNode.SplitCluster: the messages that inform the members of both halves are not modelled, nor is the wait that follows; joins are sequential.
- Clusters.DiscoveryNode.AssignGateway: the random choice of a storage node for the gateway is omitted.
- DuplicateRing.TxPoolSet.DuplicateMessage: calls are sequential; the source checks and records under two separate acquisitions of its lock.
- IhCheck.VerifyIH: the error file and its failures are not modelled.
