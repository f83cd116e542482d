# Verified model of the blockstor reconcilers

blockstor runs DRBD-replicated volumes on Kubernetes. Its controllers look at
objects (resource definitions, replicas, nodes, snapshots, devices), take one
small step at a time and are called again until nothing is left to do, while
operators, satellites and other controllers edit the same objects. This project
models the decisions those controllers and the operator commands make, and proves
what holds over every run of them.

The object store is a value, each reconcile pass, operator verb and satellite
report is a step on it, and a run is any sequence of steps. Each step is a
function, about which the run theorems are proved. Beside it stands the code as
it runs: a class whose methods loop over listings in arbitrary order and update
its fields, proved to do exactly what the function says. That also makes the
theorems independent of listing order.

| files | subject |
|---|---|
| `Names`, `DrbdPool`, `Decimal` | name order, listings, the lowest-free allocator, decimal text |
| `Cluster`, `Reconciler`, `Effects` | one pass over a replica: as a function, as code, and on the fields alone |
| `Runs`, `Identity`, `Minors`, `Latch` | runs of passes: node-ids and ports, minors, the skip-sync latch and the seeds |
| `Exhaustion`, `Converge`, `Fleet` | when an allocation fails, termination of one replica's loop, of all loops together |
| `VolumePatch` | minor-stamping patches racing with volume edits |
| `Placement`, `Witness`, `TieBreaker` | the tie-breaker and quorum machine |
| `Survival`, `Drain`, `DiskVerbs` | evacuation, migration and the last good copy |
| `LayerStack` | the layer stack, what is on disk under it, and its annotation |
| `AllOrNothing` | concurrent restores and grouped snapshots |
| `AutoSnapshot` | auto-snapshot ids and retention |
| `Devices` | claiming physical devices |
| `SizeQuery`, `ParseSize` | the size query and the size spellings |

Verify with `dafny verify dfyconfig.toml`.

## Where the code gives less than its comments say

The model follows the code. Each departure has a concrete run, and the condition
under which the property does hold.

- Ports: `takenPortsOnNode` reads Spec only, so a port that still waits in Status
  can be handed out (`Identity.BackfillCanCollide`, `Identity.FreshPortSafeExactly`).
- Minors: the reservation of a legacy definition counts base + index, its backfill
  writes base + volume number (`Minors.SparseNumbersCollide`,
  `Minors.ReservationCoversExactly`, `Minors.FreshMinorSafeExactly`), and an append before
  the backfill is not covered either (`Minors.AppendBeforeBackfillCollides`,
  `Minors.AppendLegacyExactly`). A definition that keeps its base but loses every set
  minor counts as legacy again (`Minors.RemovedLastMinorCollides`,
  `Minors.RemoveExactly`).
- Skip-sync: the stamp follows the latch, not the data (`Latch.StampCanPrecedeLatch`,
  `Latch.StampReadsLatch`).
- Seeds: the data-bearing gate skips DISKLESS peers, the peer picker does not
  (`Latch.PickedSeedExactly`, `Latch.DisklessPeerSeeds`).
- Quorum: a host that vanishes mid-pass leaves a phantom voter
  (`Witness.PhantomVoterCounted`, `Witness.PhantomVoterExactly`); a replica being
  deleted still votes (`Witness.DeletingReplicaCounted`, `Witness.QuorumExactly`).
- Data survival: `migrateDisk` leaves TIE_BREAKER on a promoted witness, the
  migration pass ignores the DISKLESS flag of its target, and the drain gate counts
  a backup that is being deleted (three counter-runs in `Survival`).
- Drain: the target the comments call stable grows with each placement, so the
  source is dropped only when every healthy node holds an UpToDate copy
  (`Drain.TargetCanGrow`, `Drain.TargetStableExactly`, `Drain.PrunesExactly`).
- Layer stack: the stack is not decided once. `resource-definition modify` replaces
  it over existing data (`LayerStack.ModifyOverDataBreaks`,
  `LayerStack.RunFaithfulExactly`).
- Restores: the loser of two concurrent restores need not fail on its first volume
  (`AllOrNothing.LoserCanFailLate`, `AllOrNothing.LateLossExactly`).
- Auto-snapshots: a manual snapshot under the next auto name leaves a gap in the ids
  (`AutoSnapshot.ManualNameLeavesGap`, `AutoSnapshot.TakenNameExactly`); a snapshot
  deleted before it is stamped makes its id come twice
  (`AutoSnapshot.DeleteBeforeStampRepeats`, `AutoSnapshot.DeleteRepeatsExactly`).
- Devices: a retry is safe only while the tokens still name the same devices
  (`Devices.RetryAgreesExactly`, `Devices.SwappedPathsClaimAnother`).
- Size query: each node is judged by its first eligible pool, not its widest
  (`SizeQuery.NarrowFirstPoolHidesRoom`, `SizeQuery.AnswerIsBestExactly`).
- Sizes: `KB` counts bytes (`ParseSize.KilobytesCountBytes`,
  `ParseSize.ReadingIsMeaningExactly`).

## Model

| member | source | states |
|---|---|---|
| `DrbdPool.LowestFree` | pkg/drbd/portpool.go:107-142 | a free value is the lowest of its range that nobody took; none means the whole range is taken |
| `DrbdPool.LowestFreeUnique` | pkg/drbd/portpool.go:107-142 | that value is determined by the set of taken ones, not by their order or repetition |
| `DrbdPool.Allocate` | pkg/drbd/allocator.go:50-63 | the mark-then-scan loop finds that value for any list of taken ones, out-of-range entries included |
| `Names.LessAtDifference` | internal/controller/resource_controller.go:1108-1118 | name order: the first character in which two names differ decides |
| `Names.LessPrefix` | internal/controller/resource_controller.go:1108-1118 | and a name comes before any that continues it |
| `Names.EqualFoldExactly` | internal/controller/resource_controller.go:1224-1230 | equal ignoring case: the same but for the case of ASCII letters |
| `Effects.PortRangeIs` | internal/controller/resource_controller.go:1964-2038 | the port range of a node: pinned on it, else its text, else the cluster text, else 20000 to 20999; none if a text consulted is malformed |
| `Effects.MinorRangeIs` | internal/controller/resource_controller.go:1964-2038 | the same for minors, with 20000 to 65535 |
| `Effects.RangeFailsExactly` | internal/controller/resource_controller.go:1547-1619 | the common minor range of a definition fails if and only if that of a node with one of its replicas does |
| `Effects.IdGiven` | internal/controller/resource_controller.go:2138-2249 | on the fields: the id stays in Spec, is copied from Status, or is the lowest of 0 to 15 that no sibling holds or reports as a live peer slot; Status mirrors it |
| `Effects.PortGiven` | internal/controller/resource_controller.go:1704-1724 | on the fields: the port stays, is copied, or is the preferred one if in range and held by no other replica there, else the lowest such |
| `Effects.MinorGiven` | internal/controller/resource_controller.go:1547-1619 | on the fields: set minors stay, a legacy base gives base + number, any other is served by every host, kept by no other definition, and every lower such one went to this definition |
| `Effects.FirstMinorMirrored` | internal/controller/resource_controller.go:1532-1540 | Status mirrors the minor of the first volume numbered 0 |
| `Effects.LatchesExactly` | internal/controller/resource_controller.go:1314-1366 | a pass with nothing to allocate or project leaves the definition latched if and only if it was, or a diskful replica reports an UpToDate, Consistent or Outdated volume of an observed generation other than day 0 |
| `Effects.QuietIsLatched` | internal/controller/resource_controller.go:1171-1230 | where passes have gone quiet a definition with such a report is latched |
| `Effects.PrunesExactly` | internal/controller/resource_controller.go:1031-1064 | entries of volumes the definition no longer has are dropped, the others kept |
| `Effects.NoSeedBesideData` | internal/controller/resource_controller.go:930-982 | a DISKLESS replica, or one with a peer that reports data, observed generation or not, gets no seed |
| `Effects.PicksExactly` | internal/controller/resource_controller.go:1087-1123 | the seed picked is that of the first peer by name whose first report of the volume is UpToDate with a generation |
| `Effects.SeedGiven` | internal/controller/resource_controller.go:930-982 | a diskful replica with nothing to prune and no peer that reports data takes it for each declared volume without a seed |
| `Effects.PromotesExactly` | internal/controller/resource_controller.go:427-498 | with nothing else to do a pass promotes a replica if and only if it is DISKLESS, in use, no TIE_BREAKER, and its node has a named diskful pool: it gets the first |
| `Effects.EndsEarly` | internal/controller/resource_controller.go:141-304 | the early ends of a pass: deletion, legacy finalizer, no definition named, and an applied replica whose definition is gone |
| `Effects.WritesInOrder` | internal/controller/resource_controller.go:328-425 | a pass that writes identities, the stamp or minors writes nothing else, then one that changes volume entries, then one that latches; each asks for another pass, and past the first the stamp is set |
| `Effects.TornWrites` | internal/controller/resource_controller.go:620-706 | a pass that died has written the definition, all or none of the Spec identities, and no Status |
| `Runs.PassFrame` | internal/controller/resource_controller.go:141-250 | a pass touches only its own replica and definition, and every identity, minor, stamp and the latch it finds set is left as it is |
| `Identity.AllocatedId` | internal/controller/resource_controller.go:743-786 | an allocation keeps the id a replica answers to; a fresh one is the lowest that no sibling holds or still reports as a live peer slot |
| `Identity.AllocatedReplica` | internal/controller/resource_controller.go:620-706 | the replica an allocation writes is the identified one, its Status mirroring its Spec |
| `Identity.PassKeepsIdsApart` | internal/controller/resource_controller.go:620-706 | one pass, whatever it decides, keeps node-ids distinct |
| `Identity.StepKeepsIdsApart` | internal/controller/resource_controller.go:620-786 | so does every operator, satellite and reconciler step |
| `Identity.NodeIdsStayApart` | internal/controller/resource_controller.go:2188-2249 | over every interleaving, passes that die between their patches included, the effective node-ids (Spec, else Status) of a definition stay pairwise distinct |
| `Identity.IdentitiesSettleOnce` | internal/controller/resource_controller.go:716-786 | a set Spec id, port or skip stamp outlives every run that does not delete the replica |
| `Identity.AllocatedPort` | internal/controller/resource_controller.go:1704-1724 | a port is kept, copied from Status, or fresh and then free in Spec on its node |
| `Identity.PortsStayApart` | internal/controller/resource_controller.go:1848-1869 | ports stay distinct per node over every such run in which no replica has a Status port without a Spec port |
| `Identity.FreshPortSafeExactly` | internal/controller/resource_controller.go:1704-1724 | before that, a fresh port is safe if and only if no replica on the node still has to copy from Status the preferred port, when that is free in Spec, or else the lowest port free in Spec |
| `Identity.BackfillCanCollide` | internal/controller/resource_controller.go:1848-1869 | counter-run: the allocation does not see a Status-only port and the later backfill collides with it |
| `Minors.NumberedClaims` | internal/controller/resource_controller.go:1547-1592 | numbering keeps every set minor, turns a legacy claim into base + volume number, and gives any other volume one that no definition reserved, inside the common range |
| `Minors.StepKeepsMinorsApart` | internal/controller/resource_controller.go:1462-1619 | every step that fits keeps minors unique across all volumes of all definitions |
| `Minors.MinorsStayApart` | internal/controller/resource_controller.go:1882-1919 | over every interleaving no two volumes of the cluster hold or claim one minor, given that edits keep legacy volume numbers at 0..n-1 and meet the two exact conditions below |
| `Minors.AppendLegacyExactly` | internal/controller/resource_controller.go:1600-1619 | appending to a definition that waits for its backfill keeps minors unique if and only if no volume anywhere claims base + number |
| `Minors.RemoveExactly` | internal/controller/resource_controller.go:1925-1935 | removing a volume does, except if and only if it held the last set minor over a base that then gives two volumes one minor or one another definition claims |
| `Minors.MinorsSettleOnce` | internal/controller/resource_controller.go:1462-1516 | no pass drops a volume or changes a set minor |
| `Minors.HostRangeExact` | internal/controller/resource_controller.go:1797-1834 | the common range fails if and only if a host range does not parse, and holds exactly the minors every host can serve |
| `Minors.FreshMinorFitsHosts` | internal/controller/resource_controller.go:1547-1592 | each fresh minor lies in the range of every node hosting the definition |
| `Minors.ReservationCoversExactly` | internal/controller/resource_controller.go:1882-1919 | a definition reserves all it will be given if and only if its legacy volume numbers are 0..n-1 |
| `Minors.FreshMinorSafeExactly` | internal/controller/resource_controller.go:1547-1592 | numbering a definition keeps clear of another one if and only if it is numbered already, or each free minor the other will be given but has not reserved has as many free ones below it as there are volumes to number |
| `Minors.SparseNumbersCollide` | internal/controller/resource_controller.go:1600-1619 | counter-run: a gap in the volume numbers, since the reservation counts base + index and the backfill writes base + number |
| `Minors.AppendBeforeBackfillCollides` | internal/controller/resource_controller.go:1882-1919 | counter-run: dense numbers are not enough when a volume is appended before the backfill |
| `Minors.RemovedLastMinorCollides` | internal/controller/resource_controller.go:1925-1935 | counter-run: a definition that loses its last set minor is promised one another definition holds |
| `Latch.StampReadsLatch` | internal/controller/resource_controller.go:743-807 | a pass that stamps a replica writes the negation of the latch it found |
| `Latch.AfterTheLatch` | internal/controller/resource_controller.go:1314-1366 | once latched a definition stays latched, and whatever its replicas report or however many vanish, no replica stamped later is told to skip |
| `Latch.NeverWrittenNeverLatches` | internal/controller/resource_controller.go:1144-1230 | while every reported generation is empty or day 0 the latch never fires and every stamp says skip |
| `Latch.StampCanPrecedeLatch` | internal/controller/resource_controller.go:1314-1366 | counter-run: a replica stamped after its peer reported written data but before the latching pass is told to skip; the other order tells it to sync |
| `Latch.PickedSeedExactly` | internal/controller/resource_controller.go:1087-1123 | past the data-bearing gate a picked seed is the day-0 generation if and only if its peer is diskful or reports day 0 itself |
| `Latch.SeedsStayDay0` | internal/controller/resource_controller.go:930-982 | over every run without a DISKLESS replica reporting UpToDate every stamped seed is the day-0 generation of its volume, ignoring case |
| `Latch.DisklessPeerSeeds` | internal/controller/resource_controller.go:1171-1216 | counter-run: a DISKLESS replica that does report one hands its generation to a new replica, since only the gate skips it |
| `Converge.RequeueLowersMeasure` | internal/controller/resource_controller.go:328-473 | every pass that requeues strictly lowers a measure over finalizer, identities, minors, Status mirror, stale and unseeded volumes, latch, stamp and DISKLESS flag |
| `Converge.Settle` | internal/controller/resource_controller.go:141-250 | so the requeue loop is a total function, and ends in a pass that does not requeue or fails |
| `Converge.Passes` | internal/controller/resource_controller.go:141-250 | after at most measure + 1 passes |
| `Converge.QuietAfterLastPass` | internal/controller/resource_controller.go:141-250 | a pass that does not requeue leaves nothing for the next one to write |
| `Converge.ReconcileConverges` | internal/controller/resource_controller.go:141-250 | the loop fails if and only if a replica that has to be provided for lacks an id, port or minor; otherwise it ends in a state the next pass leaves alone, which for a live replica of an existing definition is settled |
| `Converge.QuietExactlyWhenSettled` | internal/controller/resource_controller.go:328-420 | a pass writes nothing if and only if no legacy finalizer is left and the replica is settled: identities set and mirrored, minors complete, volumes pruned and seeded, latch and stamp in place |
| `Exhaustion.FillExactly` | internal/controller/resource_controller.go:1547-1592 | numbering succeeds if and only if there are enough free minors, and gives out exactly the lowest of them |
| `Exhaustion.ExhaustedExactly` | internal/controller/resource_controller.go:620-706 | an allocation fails if and only if every peer id is occupied, the port range is malformed or full, or the common minor range is malformed or has fewer free values than volumes to number |
| `Fleet.TornRetry` | internal/controller/resource_controller.go:620-706 | wherever an allocation died between its definition, Spec and Status patches, the next one ends where one uninterrupted allocation would have |
| `Fleet.TornSettles` | internal/controller/resource_controller.go:620-706 | so the whole loop ends in the same state, or fails the same way, as if the pass had not died |
| `Fleet.WritingLowersTotal` | internal/controller/resource_controller.go:141-250 | every pass that writes lowers a measure summed over all replicas, so no pass makes endless work for another |
| `Fleet.PassesQuiesce` | internal/controller/resource_controller.go:141-250 | over any sequence of passes the number that write is bounded by that sum |
| `Fleet.RoundsQuiesce` | internal/controller/resource_controller.go:141-250 | after as many rounds as the sum no pass over any replica writes any more |
| `Fleet.RoundsSettle` | internal/controller/resource_controller.go:328-420 | and there every replica of an existing definition is settled, or stuck for want of an id, port or minor |
| `Reconciler.ResourceReconciler.CollectTakenNodeIds` | internal/controller/resource_controller.go:2188-2249 | lists exactly the ids siblings hold or see, for any list order |
| `Reconciler.ResourceReconciler.OccupiedSlots` | internal/controller/resource_controller.go:2188-2249 | one sibling: its own id and every peer slot it reports |
| `Reconciler.ResourceReconciler.TakenPortsOnNode` | internal/controller/resource_controller.go:1848-1869 | lists exactly the Spec ports of the other replicas on the node |
| `Reconciler.ResourceReconciler.TakenMinorsCluster` | internal/controller/resource_controller.go:1882-1919 | lists exactly the minors every other definition reserves |
| `Reconciler.ResourceReconciler.ReservedMinors` | internal/controller/resource_controller.go:1882-1919 | one definition: its set minors, or base + index for a legacy one |
| `Reconciler.ResourceReconciler.HostingNodes` | internal/controller/resource_controller.go:1754-1778 | lists each node hosting the definition once |
| `Reconciler.ResourceReconciler.IntersectRange` | internal/controller/resource_controller.go:1797-1834 | the max-low, min-high loop computes the intersection of the hosts, whatever their order |
| `Reconciler.ResourceReconciler.AllocateVolumeMinors` | internal/controller/resource_controller.go:1547-1592 | backfill, then lowest free values of the common range, as the specification numbers the definition |
| `Reconciler.ResourceReconciler.FillUnset` | internal/controller/resource_controller.go:1547-1592 | each volume without a minor takes the lowest free one and reserves it for the rest |
| `Reconciler.ResourceReconciler.BackfillMinors` | internal/controller/resource_controller.go:1600-1619 | legacy base + volume number for every volume, only while none is set |
| `Reconciler.ResourceReconciler.EnsureVolumeMinors` | internal/controller/resource_controller.go:1462-1516 | a complete definition is left alone |
| `Reconciler.ResourceReconciler.ScanDataBearing` | internal/controller/resource_controller.go:1171-1216 | true exactly when some other diskful replica holds data past day 0 |
| `Reconciler.ResourceReconciler.PickSeedFromPeers` | internal/controller/resource_controller.go:1087-1123 | the generation of the first UpToDate peer in name order, independent of list order |
| `Reconciler.ResourceReconciler.FirstByName` | internal/controller/resource_controller.go:1087-1123 | the least name of a list |
| `Reconciler.ResourceReconciler.ProjectVolumes` | internal/controller/resource_controller.go:930-1005 | prune first; seed only when nothing was pruned |
| `Reconciler.ResourceReconciler.PruneStale` | internal/controller/resource_controller.go:1031-1064 | keeps exactly the entries the definition still declares, in order |
| `Reconciler.ResourceReconciler.SetSeedFromGi` | internal/controller/resource_controller.go:1260-1273 | updates the first entry of that volume or appends one |
| `Reconciler.ResourceReconciler.IdentifyReplica` | internal/controller/resource_controller.go:743-786 | backfill before fresh values; any exhausted pool fails the whole step |
| `Reconciler.ResourceReconciler.BackfillFromStatus` | internal/controller/resource_controller.go:716-726 | afterwards Spec holds what the replica answers to; nothing that was set has changed, and nothing else has |
| `Reconciler.ResourceReconciler.AllocateNodeId` | internal/controller/resource_controller.go:2138-2150 | lowest id below the peer limit that no sibling occupies |
| `Reconciler.ResourceReconciler.AllocatePortForNode` | internal/controller/resource_controller.go:1704-1724 | the preferred port if it is free on the node, else the lowest free one of its range |
| `Reconciler.ResourceReconciler.AllocateAndApply` | internal/controller/resource_controller.go:620-706 | the allocation half of a pass; on failure every object is as it was |
| `Reconciler.ResourceReconciler.RunApply` | internal/controller/resource_controller.go:328-473 | projection, latch, stamp and auto-diskful, first one that writes wins and requeues |
| `Reconciler.ResourceReconciler.FirstAvailablePool` | internal/controller/resource_controller.go:479-498 | first non-diskless pool of the node in list order |
| `Reconciler.ResourceReconciler.Reconcile` | internal/controller/resource_controller.go:141-250 | one whole pass refines the function all run theorems are about; a failed pass changes nothing |
| `VolumePatch.PatchKeepsVolumes` | internal/controller/resource_controller.go:1645-1695 | a patch carrying the resourceVersion keeps every volume, size and set minor it finds |
| `VolumePatch.NoVolumeLost` | internal/controller/resource_controller.go:1462-1516 | over every interleaving with guarded patches the list is exactly what the other writers made it: nothing appended disappears, nothing removed returns |
| `VolumePatch.MinorsOutliveRaces` | internal/controller/resource_controller.go:1645-1695 | nor is a set minor changed or cleared |
| `VolumePatch.BlindPatchLosesExactly` | internal/controller/resource_controller.go:1645-1695 | whatever others write between read and patch, an unguarded merge patch (section 2 of RFC 7386) keeps the volumes if and only if their writes cancelled out; a guarded one always does |
| `Witness.OnePassSettles` | internal/controller/resourcedefinition_controller.go:211-351 | from any replica, node and flag state one pass reaches a fixed point |
| `Witness.SettledAfterTeardown` | internal/controller/resourcedefinition_controller.go:211-351 | nor does the pass act again when deletions it asked for finish, whichever of them have: reaping commutes with the pass |
| `Witness.QuorumExactly` | internal/controller/resourcedefinition_controller.go:1050-1168 | after an undisturbed pass both quorum slots hold what the remaining voters deserve if and only if leaving out the replicas already being deleted would not change the verdict |
| `Witness.AtMostOneWitnessAdded` | internal/controller/resourcedefinition_controller.go:751-799 | a pass never raises the active witnesses above one; a new one stands alone on the first eligible node by name that holds no replica |
| `Witness.OnlyWitnessesTouched` | internal/controller/resourcedefinition_controller.go:1197-1206 | nothing but witnesses is created or deleted |
| `Witness.QuorumMatchesVoters` | internal/controller/resourcedefinition_controller.go:1050-1168 | with none being deleted it always does: majority if and only if two diskful voters and a diskless one, or three diskful ones, remain; and no on-no-quorum value is ever overwritten |
| `Witness.PhantomVoterExactly` | internal/controller/resourcedefinition_controller.go:847-928 | when the chosen host vanishes during the pass a voter that does not exist is counted, and the stamp is right if and only if three diskful voters remain anyway |
| `Witness.PhantomVoterCounted` | internal/controller/resourcedefinition_controller.go:847-928 | counter-run: two diskful replicas and one free node that vanishes |
| `Witness.DeletingReplicaCounted` | internal/controller/resourcedefinition_controller.go:1215-1244 | counter-run: a replica already being deleted is counted as a voter |
| `Witness.AddsExactly` | internal/controller/resourcedefinition_controller.go:407-438 | on the fields: a pass adds a witness if and only if the definition is replicated, wants tie-breakers, is not suppressed, its active diskful replicas are even and two at least, none is diskless, and a node is open; it goes on the first open node |
| `Witness.DeletesExactly` | internal/controller/resourcedefinition_controller.go:477-491 | on the fields: a pass deletes a replica if and only if it is a TIE_BREAKER on a node gone, evicted or lost, or an active witness that no reason to keep holds for |
| `Witness.StampsExactly` | internal/controller/resourcedefinition_controller.go:812-820 | on the fields: majority or off in both slots, and suspend-io in on-no-quorum slots that were empty |
| `Witness.LeftAlone` | internal/controller/resourcedefinition_controller.go:211-351 | an unreplicated definition, or a quorum that is not automatic, is left alone |
| `TieBreaker.Reconciler.SplitByNode` | internal/controller/resourcedefinition_controller.go:1584-1598 | partitions the replicas by whether their node is draining or gone |
| `TieBreaker.Reconciler.RemoveStrandedWitnesses` | internal/controller/resourcedefinition_controller.go:1610-1623 | deletes exactly the witnesses among the stranded replicas |
| `TieBreaker.Reconciler.DropStranded` | internal/controller/resourcedefinition_controller.go:1397-1422 | returns exactly the live replicas and deletes exactly the stranded witnesses |
| `TieBreaker.Reconciler.DeleteReplica` | internal/controller/resourcedefinition_controller.go:1197-1206 | marks one replica and nothing else |
| `TieBreaker.Reconciler.Split` | internal/controller/resourcedefinition_controller.go:1215-1244 | active diskful and diskless replicas, witnesses, and whether an inactive one was left out |
| `TieBreaker.Reconciler.PickTieBreakerNode` | internal/controller/resourcedefinition_controller.go:1276-1341 | the least eligible node by name that hosts no replica, independent of list order |
| `TieBreaker.Reconciler.RemoveWitnesses` | internal/controller/resourcedefinition_controller.go:1197-1206 | deletes exactly the listed witnesses |
| `TieBreaker.Reconciler.ApplyWitnessDecision` | internal/controller/resourcedefinition_controller.go:751-799 | creates one witness, removes all, or leaves them, with the diskless count the quorum is computed from |
| `TieBreaker.Reconciler.EnsureTiebreaker` | internal/controller/resourcedefinition_controller.go:211-351 | one undisturbed pass refines the function the theorems are about |
| `TieBreaker.Reconciler.SetQuorumProps` | internal/controller/resourcedefinition_controller.go:1050-1123 | stamps both slots; an on-no-quorum value already there wins |
| `Survival.EvacuationLosesExactly` | internal/controller/node_controller.go:153-235 | a drain pass loses the last good copy if and only if its gate opens while the evacuated node holds the only one |
| `Survival.LostLosesExactly` | internal/controller/node_controller.go:206-214 | the ungated drop of a lost node loses the last good copy if and only if that node held the only one |
| `Survival.LiveBackupGuardsEvacuation` | internal/controller/node_controller.go:360-406 | which cannot happen while no counted backup is being deleted |
| `Survival.MigrationLosesExactly` | internal/controller/resource_migration_controller.go:85-165 | a migration pass loses the last good copy if and only if it fires while the source holds the only one |
| `Survival.WitnessLosesExactly` | internal/controller/resourcedefinition_controller.go:1610-1623 | a witness pass loses it if and only if every good copy is tagged TIE_BREAKER on a draining or vanished node |
| `Survival.StepStaysSound` | internal/cli/resource.go:119-148 | every step keeps TIE_BREAKER implying DISKLESS and no self-migration, given that no migration targets a witness |
| `Survival.PassKeepsData` | internal/controller/node_controller.go:360-406 | no careful pass takes a definition from a good copy to none |
| `Survival.PassesNeverLoseData` | internal/controller/resource_migration_controller.go:85-206 | in every run, however the environment behaves, no pass is the step that destroys the last copy |
| `Survival.DataSurvives` | internal/controller/node_controller.go:153-235 | the data outlives any number of concurrent drains, migrations (cycles included) and witness moves, as long as nothing else destroys it |
| `Survival.MigrationOntoWitnessLosesData` | internal/cli/resource.go:227-274 | counter-run: a migration onto a witness leaves it tagged, and draining its node deletes the only copy |
| `Survival.DemotedTargetLosesData` | internal/controller/resource_migration_controller.go:85-141 | counter-run: the pass ignores the DISKLESS flag of its target |
| `Survival.DeletingBackupLosesData` | internal/controller/node_controller.go:412-425 | counter-run: the drain gate counts a backup that is already being deleted |
| `Survival.EvacuatesExactly` | internal/controller/node_controller.go:153-406 | on the fields: when a drain pass deletes the replica of the evacuated node, target and gate written out |
| `Survival.MigratesExactly` | internal/controller/resource_migration_controller.go:85-206 | on the fields: when a migration pass deletes the source, and that it then forgets it |
| `Survival.StartsMigration` | internal/cli/resource.go:227-303 | on the fields: what starting a migration changes and when it is refused |
| `DiskVerbs.FlagSet` | internal/cli/resource.go:344-355 | one flag is set or cleared, every other keeps its state; a list that already says so stays as it is, a new flag goes last |
| `DiskVerbs.SetDisklessSound` | internal/cli/resource.go:119-148 | forcing a disk state sets DISKLESS, clears TIE_BREAKER on promotion, and leaves a witness diskless |
| `DiskVerbs.MigrationSoundExactly` | internal/cli/resource.go:227-274 | an accepted migration leaves witnesses diskless if and only if its target was none |
| `DiskVerbs.Client.SetFlag` | internal/cli/resource.go:344-355 | the append-or-filter code refines the flag function, order kept |
| `DiskVerbs.Client.StampProp` | internal/cli/resource.go:359-369 | a value given is there afterwards, one not given leaves what is set, and no other property changes |
| `DiskVerbs.Client.SetDiskless` | internal/cli/resource.go:119-148 | as the reconcilers see it, exactly the disk-state step of the survival runs; other flags and replicas untouched; a promotion without a pool is refused |
| `DiskVerbs.Client.MigrateDisk` | internal/cli/resource.go:227-303 | refused exactly for a self-migration, an empty, missing, diskless or busy source, or a new target without a pool; else exactly the migration step of the survival runs |
| `Drain.PrunesExactly` | internal/controller/node_controller.go:153-235 | the source is dropped if and only if every healthy node held an UpToDate copy before the pass and the place count asks for no more |
| `Drain.EveryPassRaises` | internal/controller/node_controller.go:178-235 | each pass raises the number of healthy diskful replicas until every healthy node holds one |
| `Drain.TargetStableExactly` | internal/controller/node_controller.go:253-315 | the target survives a pass if and only if healthy nodes do not outnumber the diskful replicas or the place count covers them |
| `Drain.TargetCanGrow` | internal/controller/node_controller.go:253-315 | counter-run: one copy, two healthy nodes, the target goes from one to two |
| `Drain.DrainProgresses` | internal/controller/node_controller.go:153-235 | over every run k passes put a replica on k more healthy nodes, or on all of them |
| `Drain.DrainCompletes` | internal/controller/node_controller.go:153-235 | after as many passes as there are healthy nodes, the first pass that finds every copy UpToDate drops the source, unless the place count asks for more nodes than are healthy |
| `Drain.Reconciler.AllVolumesUpToDate` | internal/controller/resource_migration_controller.go:194-206 | true exactly when there is a volume and all are UpToDate |
| `Drain.Reconciler.CountHealthyNodes` | internal/controller/node_controller.go:263-315 | the number of nodes not draining |
| `Drain.Reconciler.CountDiskful` | internal/controller/node_controller.go:263-315 | diskful replicas, other draining nodes left out |
| `Drain.Reconciler.CurrentDiskfulTarget` | internal/controller/node_controller.go:263-315 | the diskful redundancy the drain preserves |
| `Drain.Reconciler.CountsAsBackup` | internal/controller/node_controller.go:360-425 | an UpToDate diskful copy elsewhere on a node that is not draining |
| `Drain.Reconciler.EvacuationReplacementReady` | internal/controller/node_controller.go:360-406 | the gate opens exactly when the ready backups reach the target, and there is one |
| `Drain.Reconciler.MigrateResource` | internal/controller/node_controller.go:153-235 | one pass refines the functions the survival theorems are about: refused without a resource group, gated when evicted, ungated when lost |
| `Drain.Reconciler.ReconcileMigration` | internal/controller/resource_migration_controller.go:85-187 | so does one migration pass |
| `LayerStack.StepFaithfulExactly` | internal/controller/resourcedefinition_layer_stack.go:64-115 | after a step disk and stack are in step if and only if it names the stack on disk, or they were and it is neither a pin over a disk it cannot see nor an edit to another stack than the one on disk |
| `LayerStack.RunFaithfulExactly` | internal/controller/resourcedefinition_layer_stack.go:64-244 | over every run of group edits, re-parenting, pins, stack edits, builds and reports the data ends under the stack the definition names if and only if every blind pin and every edit to another stack was followed by an edit back |
| `LayerStack.StackStaysFaithful` | internal/controller/resourcedefinition_layer_stack.go:64-244 | so it never leaves that stack in a run in which data on disk stays visible and no stack is named over data of another |
| `LayerStack.ModifyOverDataBreaks` | internal/cli/definition.go:95-112 | counter-run: naming another stack over visible data goes through; naming the old one again repairs it |
| `LayerStack.StackDecidedOnce` | api/v1alpha1/resourcedefinition_types.go:29-30 | a named stack is always the one the operator named last: no pass, group edit, build or report changes it, and nothing empties it |
| `LayerStack.PinNames` | internal/controller/resourcedefinition_layer_stack.go:64-244 | on the fields: a pass keeps a named stack; without one it takes the group's, or the default if the definition is latched, has metadata or a device |
| `LayerStack.JoinAppends` | internal/controller/resourcedefinition_layer_stack.go:64-115 | the annotation lists the layers in order, separated by commas |
| `LayerStack.JoinEmptyExactly` | internal/controller/resourcedefinition_layer_stack.go:145-189 | the annotation text is empty if and only if the group stack is empty or its one layer has no name |
| `LayerStack.RefreshIsTruthful` | internal/controller/resourcedefinition_layer_stack.go:145-189 | on a named stack one pass makes the annotation present if and only if some layer of the group is not in the stack, ignoring case (a group of one unnamed layer excepted), with the group's layers; a second changes nothing |
| `LayerStack.AnnotationConverges` | internal/controller/resourcedefinition_layer_stack.go:64-189 | from any state, a stray annotation included, two passes make the annotation true of a named stack, and one does if the stack was named; further passes change nothing |
| `LayerStack.OnePassSufficesExactly` | internal/controller/resourcedefinition_layer_stack.go:64-115 | when one pass is enough: only a definition created by hand with an annotation and no stack can need a second |
| `LayerStack.OnePassAnnotates` | internal/controller/resourcedefinition_layer_stack.go:64-189 | in every state of every run from a definition without a stray annotation one pass makes the annotation true of a named stack, and a second changes nothing |
| `LayerStack.Definition.LacksLayerOf` | pkg/api/v1/layer_stack.go:59-67 | the loop decides whether some layer of the group is missing |
| `LayerStack.Definition.PinLayerStack` | internal/controller/resourcedefinition_layer_stack.go:64-115 | one pass refines the pin function |
| `LayerStack.Definition.RefreshUnappliedGroupStack` | internal/controller/resourcedefinition_layer_stack.go:145-189 | sets, updates or clears the annotation and nothing else |
| `LayerStack.Definition.ModifyDefinition` | internal/cli/definition.go:43-115 | refused exactly for an empty command, an unknown group, an invalid list or an emptied stack, and then nothing is written; else exactly the steps the operator named |
| `AllOrNothing.AccountsStayExact` | internal/cli/snapshot.go:1043-1095 | every interleaving in which outsiders delete only what no command counts on keeps each command's account of its own objects exact |
| `AllOrNothing.RemoveKeepsExactly` | internal/cli/snapshot.go:1087-1095 | a delete by an outsider keeps the accounts exact if and only if the object belongs to no command or is a leftover |
| `AllOrNothing.RecreatedSurvivesExactly` | internal/cli/snapshot.go:1087-1095 | an object an outsider deletes and creates anew while a command unwinds survives if and only if the command had not got it left to delete |
| `AllOrNothing.UnwindTakesOnlyItsOwn` | internal/cli/snapshot.go:1087-1095 | a failing command deletes only what it created itself |
| `AllOrNothing.AtMostOneSucceeds` | internal/cli/snapshot.go:981-1036 | of all commands that share a key at most one ever succeeds |
| `AllOrNothing.DeletedBetweenBothSucceed` | internal/cli/snapshot.go:981-1036 | counter-run: a delete in between lets two commands over one key succeed |
| `AllOrNothing.AllOrNothing` | internal/cli/snapshot.go:70-135 | a finished command leaves all of its objects, or only those whose delete failed |
| `AllOrNothing.StartsExactly` | internal/cli/snapshot.go:981-1050 | a command starts creating if and only if its list is not empty and, if it checks first, none of the objects is there |
| `AllOrNothing.LosesExactly` | internal/cli/snapshot.go:1043-1080 | a create fails if and only if the store refuses it, the object was there all along, the list names it twice, or another command holds it at that moment |
| `AllOrNothing.LateLossExactly` | internal/cli/snapshot.go:1043-1080 | of two commands over one list, one past its first create loses to the other if and only if that one is unwinding the object or could not delete it |
| `AllOrNothing.LoserCanFailLate` | internal/cli/snapshot.go:1043-1080 | counter-run: the loser of two restores fails on its second volume |
| `AllOrNothing.Store.CreateAll` | internal/cli/snapshot.go:70-135 | alone on the store: every key or, on the first failure, exactly what was there before |
| `AllOrNothing.Store.Unwind` | internal/cli/snapshot.go:127-135 | deleting what was added restores the store |
| `AutoSnapshot.NameInjective` | internal/controller/autosnapshot_controller.go:587-589 | two ids never share a name, zero padding included |
| `AutoSnapshot.NextIdReads` | internal/controller/autosnapshot_controller.go:562-580 | a stamped id is read back as itself, a missing one as the first, any other text if and only if it spells a 64-bit number, never below one |
| `AutoSnapshot.IdsGapFreeAndSpaced` | internal/controller/autosnapshot_controller.go:244-392 | over every run, crashes between create and stamp and deletes of stamped snapshots included, created ids are 1, 2, 3, ... without gap or repeat and at least RunEvery apart |
| `AutoSnapshot.BlankInv` | internal/controller/autosnapshot_controller.go:562-580 | a definition never served meets the invariant those runs start from |
| `AutoSnapshot.DeleteRepeatsExactly` | internal/controller/autosnapshot_controller.go:290-350 | a deleted snapshot makes the next tick repeat an id if and only if it was created but not stamped yet |
| `AutoSnapshot.DeleteBeforeStampRepeats` | internal/controller/autosnapshot_controller.go:357-392 | counter-run: crash between create and stamp, delete, next tick |
| `AutoSnapshot.TakenNameExactly` | internal/controller/autosnapshot_controller.go:290-350 | a due tick creates the next id if and only if nobody holds its name; otherwise it stamps the id as done all the same |
| `AutoSnapshot.TakenNameLeavesGap` | internal/controller/autosnapshot_controller.go:290-350 | from any such state the next id on the log skips the taken one |
| `AutoSnapshot.ManualNameLeavesGap` | internal/controller/autosnapshot_controller.go:290-350 | counter-run: a manual snapshot under the first auto name, then two ticks |
| `AutoSnapshot.PruneKeepsNewest` | internal/controller/autosnapshot_controller.go:407-471 | a prune pass with no restore in use leaves only snapshots among the Keep newest, those being deleted counted, and every one certainly among them |
| `AutoSnapshot.TickPrunes` | internal/controller/autosnapshot_controller.go:244-284 | so does every tick that does not crash, due or not |
| `AutoSnapshot.ManualUntouched` | internal/controller/autosnapshot_controller.go:407-471 | no prune pass touches a snapshot the cron did not create |
| `AutoSnapshot.InUseUntouched` | internal/controller/autosnapshot_controller.go:478-525 | nor one a restore still reads from, nor anything while Keep does not parse |
| `AutoSnapshot.BudgetReads` | internal/controller/autosnapshot_controller.go:407-435 | Keep is the number given when positive, ten when absent or not positive, an error when it does not parse |
| `AutoSnapshot.TicksWhenDue` | internal/controller/autosnapshot_controller.go:244-262 | a tick creates if and only if the last stamp is RunEvery ago or there is none |
| `AutoSnapshot.NamesPadded` | internal/controller/autosnapshot_controller.go:587-589 | ids are padded to five digits |
| `AutoSnapshot.Cron.ProcessDefinition` | internal/controller/autosnapshot_controller.go:244-392 | one tick: due check, create, stamp, prune, with a crash after the create |
| `AutoSnapshot.Cron.Insert` | internal/controller/autosnapshot_controller.go:407-471 | keeps the list ordered by creation time |
| `AutoSnapshot.Cron.PruneOldAutoSnapshots` | internal/controller/autosnapshot_controller.go:407-471 | deletes exactly the oldest live auto-snapshots past the budget that no restore reads |
| `Decimal.ParseFormat` | internal/controller/autosnapshot_controller.go:562-589 | a formatted id parses back |
| `Devices.PatchIsSafe` | internal/cli/physical.go:290-347 | a patch never replaces a claim by another one and claims anew only a device that is Available and not known to be busy |
| `Devices.PatchExactly` | internal/cli/physical.go:290-347 | a patch goes through if and only if the device is claimed for the same pool, kind, volume group, thin pool, zpool and directory, or unclaimed, available and not busy |
| `Devices.PoolRegistered` | internal/cli/physical.go:99-150 | the pool is registered as wanted, or an existing one kept and the command refused exactly when its kind or a wanted property differs |
| `Devices.ClaimsNeverReplaced` | internal/cli/physical.go:209-347 | over every interleaving of commands and satellite reports a claim stands until its device is deleted |
| `Devices.UnresolvedTokenStampsNothing` | internal/cli/physical.go:209-289 | a command with an unknown or ambiguous token claims nothing at all |
| `Devices.StampExactly` | internal/cli/physical.go:209-260 | the patches all go through if and only if every device could be claimed from the start, and then claim just those |
| `Devices.RefusedAt` | internal/cli/physical.go:209-260 | a run that is refused stops at the first device it cannot claim and keeps the claims before it |
| `Devices.StampRetry` | internal/cli/physical.go:209-260 | stamping a prefix, dying, and stamping everything again equals one uninterrupted run |
| `Devices.CrashThenRetry` | internal/cli/physical.go:99-150 | wherever the first attempt died and however far the satellite got with the devices claimed, the command run again ends with the same claims, pools and verdict, as long as no device was deleted and every token resolves as before |
| `Devices.RetryAgreesExactly` | internal/cli/physical.go:209-347 | after an attempt that would have gone through, a retry reaches the same claims and verdict if and only if every token names one device of this command and the tokens name all that is still to be claimed |
| `Devices.RetryAmongOthersExactly` | internal/cli/physical.go:209-347 | among any other steps, new devices and other commands included, a retry goes through if and only if what the first attempt had not claimed can be claimed still, and then it has claimed everything |
| `Devices.ReportRenamesExactly` | internal/cli/physical.go:364-369 | a report changes what a token names if and only if the device goes by that token under its old or new path only |
| `Devices.SameResolutionExactly` | internal/cli/physical.go:261-289 | a token that named one device still does if and only if it names the same set |
| `Devices.SwappedPathsClaimAnother` | internal/cli/physical.go:261-289 | counter-run: two disks swap paths between crash and retry and the retry claims the second |
| `Devices.SharedPathRefusesRetry` | internal/cli/physical.go:261-289 | counter-run: a second disk under the first one's path makes the retry refuse |
| `Devices.Inventory.ResolveDevice` | internal/cli/physical.go:261-289 | the one device a token names, or none when zero or several match |
| `Devices.Inventory.StampDevices` | internal/cli/physical.go:209-260 | resolves every token before the first write, then claims in order |
| `SizeQuery.KthLargest` | internal/cli/definition.go:394-413 | with one pool per node, widest first, entry k is the k-th largest free capacity |
| `SizeQuery.AnswerIsBound` | internal/cli/definition.go:394-413 | the answer is the largest size that place-count many of the kept nodes, one at least, can each hold, or zero |
| `SizeQuery.AnswerFits` | internal/cli/definition.go:338-413 | a positive answer fits on that many distinct nodes |
| `SizeQuery.ChosenIsSelection` | internal/cli/definition.go:338-382 | the kept pools are one eligible pool for each node that has any |
| `SizeQuery.KeptExactly` | internal/cli/definition.go:351-374 | a pool is kept if and only if it is neither diskless, missing nor filtered out, and the first such of its node |
| `SizeQuery.WiderSelectionNoWorse` | internal/cli/definition.go:338-413 | no selection at least as wide on every node has a smaller bound |
| `SizeQuery.WidestKeptIsBest` | internal/cli/definition.go:338-413 | when each node lists its widest eligible pool first, no selection beats the answer |
| `SizeQuery.AnswerIsBestExactly` | internal/cli/definition.go:338-413 | the answer never exceeds the bound of all eligible pools, and equals it if and only if for no size the kept pools reach too few nodes and the eligible ones enough |
| `SizeQuery.BestIsAttained` | internal/cli/definition.go:338-413 | that bound is the best there is: no selection exceeds it and the widest pool of every node reaches it |
| `SizeQuery.NarrowFirstPoolHidesRoom` | internal/cli/definition.go:351-374 | counterexample: a node that lists its narrow pool first |
| `SizeQuery.Insert` | internal/cli/definition.go:376-378 | ordered insertion keeps the pools and the order |
| `SizeQuery.CandidatePools` | internal/cli/definition.go:338-382 | the filtering and sorting loop returns exactly the first eligible pool of each node, widest first |
| `SizeQuery.Wanted` | internal/cli/definition.go:344-347 | the names a group accepts |
| `SizeQuery.QuerySize` | internal/cli/definition.go:301-306 | the query as a whole gives that bound |
| `ParseSize.SpellingRead` | internal/cli/write_more.go:120-181 | every well-formed spelling (blanks, plus, digits, scale letter, marker) is read as its meaning by a table of its own: k 1024, m 1048576, g 1073741824, t 1099511627776 bytes; `KB` as bytes |
| `ParseSize.TablesAgree` | internal/cli/write_more.go:136-153 | the parser's letters and blanks are those of the reference table |
| `Decimal.DigitsAre` | internal/cli/write_more.go:155-158 | the ten digits and their values |
| `ParseSize.ReadingIsMeaningExactly` | internal/cli/write_more.go:166-176 | result and reference meaning agree if and only if the spelling is not `KB` with a positive 64-bit number |
| `ParseSize.KilobytesCountBytes` | internal/cli/write_more.go:166-176 | counterexample: `2048KB` gives 2 |
| `ParseSize.AcceptedIsSpelled` | internal/cli/write_more.go:120-181 | only well-formed spellings are accepted |
| `ParseSize.ParsedExactly` | internal/cli/write_more.go:120-181 | acceptance and result in both directions |
| `ParseSize.AcceptedFits` | internal/cli/write_more.go:155-163 | every accepted size is positive and fits 64 bits |
| `ParseSize.TrimDrops` | internal/cli/write_more.go:121-153 | surrounding blanks are dropped and nothing else |
| `ParseSize.TrimSizeSuffix` | internal/cli/write_more.go:897-908 | the suffix loop finds the longest marker, and whether it was a bare `b` |
| `ParseSize.SizeTrimmed` | internal/cli/write_more.go:136-180 | unit, number and checked multiplication |
| `ParseSize.ParseSize` | internal/cli/write_more.go:120-181 | the whole parser refines the specification |

## Left out

- Reads are current: informer caches, conflict retries (except in `VolumePatch`) and network faults are not modelled. Passes are serial, as the allocation mutex makes them; an allocation may die between its patches, a witness or drain pass is one step.
- The deterministic day-0 generation, a SHA-256 of definition and volume number, is a parameter: every theorem holds for any such function.
- The placer is a contract in `Survival` and `Drain`: it adds diskful replicas that are not yet UpToDate on healthy nodes, up to its target. Its scoring is not part of this model.
- The 32-bit width of ids, ports and minors: they are unbounded here, so base + volume number never wraps.
- Node names compare exactly in `Placement`; the case-insensitive fallback lookup of node objects is not modelled.
- Node ranges arrive parsed, unset or malformed; the text syntax of a range is not modelled.
- Unicode: text is a sequence of characters rather than bytes, and letters outside A-Z are not folded. No accepted size contains one.
- Deletes mark an object that its satellite finishes later; in `AllOrNothing` and `AutoSnapshot` deletes of objects without a finalizer are immediate.
- Survival.StartMigration: does not refuse a source that is in use, so the runs it is part of include more than the command allows; `DiskVerbs.Client.MigrateDisk` models the refusal.
- Identity.PortsStayApart: requires that no replica still has a Status port without a Spec port, because the property is false before that; `Identity.FreshPortSafeExactly` has the exact condition.
- Minors.MinorsStayApart: requires that edits of a definition waiting for its backfill keep its numbers dense and meet `Minors.AppendLegacyExactly` and `Minors.RemoveExactly`; with sparse numbers it can still hold for a run, which `Minors.FreshMinorSafeExactly` decides pass by pass.
- Latch.SeedsStayDay0: requires that DISKLESS replicas report no UpToDate volume, because the property is false otherwise.
- Drain.DrainProgresses: covers runs of one drain with fixed nodes and active replicas; INACTIVE replicas are not added during it.
- AutoSnapshot.IdsGapFreeAndSpaced: assumes a fixed RunEvery, a clock that does not go back, unedited bookkeeping, no foreign object under a future auto name, no delete before the stamp and fewer than 2^63 ids.
- Witness.OnePassSettles: annotations that expire with time are flags here.
- Witness.PhantomVoterExactly: only the chosen node vanishes during the pass; a definition that vanishes takes the stamp with it.
- AllOrNothing.Store.CreateAll: one command alone, with deletes that succeed; interleavings and failing deletes are in the run theorems.
- Survival.DataSurvives: requires the side conditions its counter-runs show to be needed, and its runs contain no ungated drop of a lost node, whose exact effect is `Survival.LostLosesExactly`.
- AllOrNothing.AtMostOneSucceeds: requires that outsiders delete no object a command counts on, by the exact condition of `AllOrNothing.RemoveKeepsExactly`; after such a delete a second command can succeed, as `AllOrNothing.DeletedBetweenBothSucceed` shows.
- The restore-leftover handshake, demotion checks, `toggle-disk --cancel`, activation and the other thin verbs of the command line.
- The attach request a provider builds for a device pool, given here as one value.
- Wiring, probes, rendering, events, logging, encryption, property accessors, heartbeat, auto-evict, label sync and the storage-pool reconcilers: plumbing or short decisions.
