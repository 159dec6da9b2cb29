# The AIStore control plane, modelled and proved in Dafny

AIStore is a distributed object store. Its control plane is run by proxies, one of which is
the primary: it owns the versioned cluster metadata, replicates it, admits and removes
nodes, runs two-phase transactions on buckets, and merges the listings of all targets. This
project models the parts of it where several steps, nodes or operations have to agree, and
proves what they agree on: for every input, every interleaving and every run.

| file | what it models |
|---|---|
| `Names.dfy`, `Listing.dfy`, `ListingCuts.dfy`, `ListingRuns.dfy` | paged list-objects: sort, merge, de-duplication, continuation tokens, and whole listings over any number of targets |
| `MetasyncRx.dfy` | the receiving side of metasync, the replication of versioned metadata |
| `MetasyncTx.dfy` | its sending side: acknowledgements, pending nodes, retries, over a network that loses, repeats and reorders |
| `ClusterMap.dfy`, `Lifecycle.dfy` | the cluster map (Smap) as a value, the Information Center (IC), and the update transactions |
| `SmapOwner.dfy`, `Primary.dfy` | the same as objects that are updated in place, cloned and published; the decision to rebalance |
| `Batches.dfy` | batch maintenance, shutdown, decommission and removal of nodes, and the way back |
| `Membership.dfy` | admission of administrative operations, as a state machine |
| `Keepalive.dfy` | which nodes the primary gives up on |
| `Notifs.dfy`, `NotifTables.dfy` | tables of notification listeners and their convergence among IC members |
| `BucketMeta.dfy`, `BmdObjects.dfy` | bucket metadata (BMD) and bucket IDs (BIDs), as values and as objects that are cloned and published |
| `Txn.dfy` | two-phase bucket transactions with their rollbacks |
| `Confirm.dfy` | counting confirmations of a newer cluster map |
| `Moss.dfy` | selection of the designated target of a multi-object request |
| `Auth.dfy`, `AuthTables.dfy` | revocation of tokens under concurrent validation, and the tables behind it |

Where the code changes things in place, the model is a class or an array method that is
proved against a function or relation on values, and the theorems are about those. Where Go
leaves the order open, as when ranging over a map, the model chooses arbitrarily, so that a
theorem holds for every order. Clocks, the network, disks and targets are parameters or
arbitrary choices. Concurrency is a choice of steps, or arbitrary work of others between the
steps of an operation.

`dafny verify dfyconfig.toml` checks the whole project.

## Where the code does not do what one might expect

Each of these is a lemma or a clause below, with the exact condition next to it.

- A recursive listing in pages loses copies of an object exactly when a page boundary falls
  between two entries of the same name: the page drops the rest of the group. The copy with
  the best status is always listed.
- Admission keeps rebalances apart exactly as long as no node that joins on its own starts one
  in the meantime; when one does, a batch may remove its nodes during that rebalance.
- After a fully acknowledged synchronization nodes stay pending if something newer than what
  was queued has been sent, because the queued version is recorded. The next retry settles it.
- The search of a listener table is said to prefer running listeners. It is sure to find one
  only if no match has finished; otherwise a running match must happen to come first in every
  shard.
- A snapshot of the listener tables that is taken in the middle of the reaction to a changed
  cluster map lists UUIDs as running and finished. One who applies it ends up with both,
  unless all of them are known there. Snapshots like that converge only if everybody who
  mentions such a UUID lists it twice.
- Three confirmations of a newer cluster map are three nodes that name its primary, and not
  three nodes that have that version: reports of the same primary at an older version count if
  they come first.
- A revoked token may be accepted in the instant at which it expires, if a validation that was
  in flight has put it back into the cache.
- Nodes that keepalive could not remove, for no longer being the primary, are removed by a
  later round even if they answer again, unless a round in between was stopped.
- A proxy that is put in maintenance leaves the IC and may be seated again by the staffing
  that follows at once, which looks at electability only.
- A failed commit takes a created bucket back only if that can be saved; setting properties is
  not taken back; and a failed dry run of a copy removes a destination that somebody else has
  created in the meantime.

## Model

| member | source | states |
|---|---|---|
| `Listing.SortLso` | cmn/objlist_utils.go:23-107 | Sorting a merged list keeps its entries as a multiset and puts them in the order of the mode: by name when not recursive, otherwise directories first and by name within each group; of one name a directory first, and then the lower status. |
| `Listing.SortedMeansInOrder` | cmn/objlist_utils.go:47-60 | The two comparison functions sort into exactly that order. |
| `Names.LessIs` | cmn/objlist_utils.go:99-107 | The order of names: the first difference decides, and a prefix comes first. |
| `Listing.SortedByName` | cmn/objlist_utils.go:47-60 | Both orders are orders by name wherever a listing relies on it: always when not recursive, and without directory entries when recursive. |
| `Listing.DedupLso` | ais/plstcx.go:477-495 | In place, on the array: the kept prefix is the first entry of every run of equal names, cut at the maximum size. |
| `Listing.DedupCollapses` | ais/plstcx.go:477-495 | On sorted entries, what is kept is strictly sorted, has exactly one entry for every name, and that is a directory if there is one, and otherwise one with the lowest status. |
| `Listing.SearchAfter` | ais/plstcx.go:534-543 | The binary search finds the first entry named after the token: everything before it is at most the token. |
| `Listing.FinLsoNBI` | ais/plstcx.go:497-547 | An inventory page: its token is the least non-empty token of the targets (empty only if all are), and it lists exactly the merged entries up to that token. |
| `Listing.NbiPageIsExact` | ais/plstcx.go:497-547 | That page lists exactly the entries of all inventories between the previous token and its own, and its token is past the previous one. |
| `Listing.ConcatLso` | ais/plstcx.go:424-459 | Concatenation and sort: the merge is a sorted permutation of all replies. |
| `Listing.FinLsoA` | ais/plstcx.go:461-475 | The final page is the first names of the merge, and continues from its last name exactly when it is full. |
| `Listing.FullReplyBounds` | ais/plstcx.go:461-475 | A full reply of any one target bounds the page: as many names of the merge are at most the last name of that reply. This is why the page token never skips entries that a target has not sent yet. |
| `Listing.SizedPageIsExact` | ais/plstcx.go:424-475 | A page of a regular listing lists the entries of all inventories between the previous token and its own: one per name, with the lowest status; or, when recursive, some copies of every name, one with the lowest status among them; only the last page is short. |
| `Listing.CutLists` | ais/plstcx.go:497-547 | Cutting a listing at a token lists exactly the part of the pool up to the token, in every mode. |
| `Listing.ListsAppend` | ais/prxs3.go:462-493 | Listings of consecutive ranges, appended, list the joined range, in every mode. |
| `Listing.RankAtMost` | ais/plstcx.go:461-475 | If a sorted list has all of some strictly sorted names, its k-th name is at most the k-th of those. |
| `ListingRuns.TargetPage` | xact/xs/lso.go:522-547 | A target answers with exactly its next entries after the token, and with an empty token only at the end. |
| `ListingRuns.TargetInventoryPage` | xact/xs/ls_nbi.go:314-445 | The same for an inventory, whose page size is up to the target and whose last page may not be recognized as such. |
| `ListingRuns.DropEmpty` | ais/plstcx.go:256-270 | Leaving out replies without entries (and, for inventories, without a token) changes neither the merge nor the least token. |
| `ListingCuts.CutInOrder` | ais/plstcx.go:461-475 | A boundary cuts a name exactly if, in any name-sorted sequence of the pool, the entries on both sides of it have that name. |
| `ListingCuts.FullPageIsWholeIff` | ais/plstcx.go:461-475 | A full page, cut from the merge, has every copy up to its token if and only if its boundary does not cut a name. |
| `ListingRuns.PageIsWholeIff` | ais/plstcx.go:424-475 | So for a page merged from the replies of all targets, in terms of their inventories. |
| `ListingCuts.RunStep` | ais/prxs3.go:462-493 | One more page: the pages so far have every copy if and only if none of their boundaries cuts a name, although the next page is counted from the token and not from the start. |
| `ListingCuts.AllEndInOrder` | ais/prxs3.go:462-493 | That condition read off the sorted inventory: at every multiple of the page size the names on both sides differ. |
| `ListingCuts.OneEntryPages` | ais/plstcx.go:461-475 | For pages of one entry it is that no two entries share a name. |
| `ListingRuns.CollapsedIsWholeIff` | ais/plstcx.go:477-495 | A listing with one entry per name has every copy if and only if names are distinct. |
| `ListingRuns.LsObjsA` | ais/plstcx.go:229-284 | One page over all targets; none if and only if one of them fails. It is exact for its range, and its token is a listed name past the previous token. A recursive page has every copy of its range if and only if, in the order of names, its last entry and the next one have different names. |
| `ListingRuns.LsAllPagesS3` | ais/prxs3.go:462-493 | A whole run terminates and returns the simple listing, the sorted union of all inventories, with the lowest-status copy of every name in it; a run fails only because a target fails to list after the token reached, and returns the listing up to there. For every page size, a recursive listing returns every copy if and only if no page boundary falls between two entries of the same name, and a non-recursive one if and only if names are distinct. |
| `MetasyncRx.ApplyGoesBackIff` | ais/proxy.go:3083-3108 | The locked update alone moves a version back in exactly one case: bucket metadata of another cluster that is older and can be stored. |
| `MetasyncRx.ReceiveOneHolds` | ais/htrun.go:1865-2155 | Extracting and applying one kind of metadata never decreases its version, and success means holding at least what was sent. |
| `MetasyncRx.ReceiveHolds` | ais/proxy.go:1165-1246 | So for a whole message, and a positive response vouches for every kind in it. |
| `MetasyncRx.ReceiveIs` | ais/proxy.go:1165-1246 | Exactly what a message does, whatever is held and sent: which items replace what is held, contents included (newer, not of another cluster, with the receiver and the primary in a cluster map, and stored), and when the response is positive. |
| `MetasyncRx.ReceiveIsNewer` | ais/htrun.go:1865-2090 | Within one cluster the receiver ends with the newer of what it held and what was sent, of every kind; the response is positive if and only if nothing sent is older, other than a cluster map that is identical but for its version. |
| `MetasyncRx.ApplyIs` | ais/proxy.go:3083-3108 | Exactly what a locked update does on its own, when something has changed since the first comparison. |
| `MetasyncRx.StepIsMax` | ais/clustermap.go:652-699 | One atomic step of any handler leaves the maximum of what was held and what was delivered and could be stored; nothing moves if it could not. |
| `MetasyncRx.RunIsNewest` | ais/htrun.go:1865-2155 | Over every interleaving of any number of handlers, any of which may fail to store, versions never decrease and the receiver ends with the newest version held or stored. |
| `MetasyncRx.ReorderingConverges` | ais/htrun.go:1865-2155 | Two runs in which the same deliveries have been stored, in any order and any number of times, end with the same metadata, contents included. |
| `MetasyncTx.AckedIsBehindIffSkipped` | ais/metasync.go:435-475 | For any number of queued pairs: after an acknowledged synchronization a node is in sync if and only if nothing newer was sent than what was queued; the queued versions are what gets recorded. |
| `MetasyncTx.RetryDrains` | ais/metasync.go:556-623 | A retry of everything last synced that a node acknowledges leaves the node in sync. |
| `MetasyncTx.RecordKeepsHeld` | ais/metasync.go:458-475 | Recording an acknowledgement keeps the record within what the node holds. |
| `MetasyncTx.RecordedIs` | ais/metasync.go:458-475 | What is recorded: the version queued last of every queued kind, and what was recorded before of the others. |
| `MetasyncTx.NothingPendingMeansHeld` | ais/metasync.go:514-553 | A node that is not pending holds at least the last synced version of everything. |
| `MetasyncTx.Metasyncer.BuildPayload` | ais/metasync.go:303-360 | The payload has every queued kind and no other: the current version if that is newer than the one queued last, and that one otherwise. |
| `MetasyncTx.Metasyncer.SyncDone` | ais/metasync.go:458-475 | The record of one node is updated with the queued versions, and of no other. |
| `MetasyncTx.Metasyncer.Do` | ais/metasync.go:303-432 | Asks every other member and returns, while primary, the number of active ones that have not answered positively to any attempt. Zero means that every other active proxy holds at least what was sent, and then a recorded node is in sync exactly if what was sent is what was queued. What is sent is the newer of queued and current, and becomes last synced; records of inactive nodes are dropped; no node goes back. |
| `MetasyncTx.Metasyncer.RetryRefused` | ais/metasync.go:477-511 | The bounded retry of nodes that refuse connections: those not left over have acknowledged and hold the payload; none is left over before the fourth round, unless the role is lost or another primary is detected. |
| `MetasyncTx.Metasyncer.Pending` | ais/metasync.go:514-553 | While primary, the pending nodes are exactly the other members whose record is behind some last synced version, and all of them are on record from then on; otherwise there are none. Nothing that was recorded changes. |
| `MetasyncTx.Metasyncer.HandlePending` | ais/metasync.go:556-623 | Asks exactly the active nodes that are behind and returns how many have not answered positively, unless another primary is detected; zero leaves no active node behind. |
| `MetasyncTx.Metasyncer.Run` | ais/metasync.go:192-236 | Over every run with lost, late and repeated messages, changes of the map, loss of the role and resets: nothing is recorded that a node does not hold, no node goes back, every proxy that is in sync holds everything last synced, and so do all proxies when the primary has nothing pending. Last synced is, of every kind, what was sent last since the last reset. |
| `ClusterMap.StaffingIsOk` | ais/clustermap.go:169-191 | Staffing, in every iteration order, ends with the primary in the IC, at most three members, the true count returned, and every electable proxy in unless the IC is full. |
| `ClusterMap.MarkedProxyIsReseated` | ais/clustermap.go:169-191 | A proxy that maintenance has just taken out of the IC is not put back if three members remain, and is put back, if electable, when there are no more than three candidates. |
| `ClusterMap.ReseatingIsArbitrary` | ais/clustermap.go:169-191 | In between, with a seat left and more candidates than seats, it depends on the order: some staffing seats the proxy and some does not. |
| `ClusterMap.BatchIsSimultaneous` | ais/clustermap.go:469-493 | Marking, clearing or removing the nodes of a batch one by one is the simultaneous edit of the set of them, whatever the order and the repetitions; the version grows exactly if a node was touched. |
| `Lifecycle.StepKeeps` | ais/prxcycle.go:318-388 | Every transaction (maintenance, its completion, its end, removal, join, keepalive removal), in every iteration order, keeps IDs of proxies and targets disjoint, the primary in place, the IC staffed with at most three, and full if it was full, versions increasing with content, and types of nodes. |
| `Lifecycle.StepIs` | ais/prxcycle.go:318-388 | What every transaction makes of the nodes, exactly: which are removed or added, and which flags are set and cleared, of the batch and of nobody else; only IC membership of proxies is left to staffing. |
| `Lifecycle.PreOkIs` | ais/prxcycle.go:318-344 | Exactly when a transaction proceeds: nodes missing, targets in the batch during a rebalance, a node known as one of the other type, and not being the primary are what refuses it. |
| `Lifecycle.MarkReachesAll` | ais/prxcycle.go:318-344 | The mark reaches every node of the batch, and outside of it nothing changes but IC membership. |
| `Lifecycle.DropRunKeeps` | ais/kalive.go:354-402 | A keepalive removal with staffing after every proxy removes exactly its nodes and keeps all of the above at every step. |
| `Lifecycle.JoinKeeps` | ais/pclupost.go:729-738 | So does a join, also one that replaces a node or brings IC flags of its own. |
| `Lifecycle.StepActive` | ais/prxcycle.go:318-388 | Which targets are active after each transaction, as a set. |
| `Lifecycle.MustRebalance` | ais/prxcycle.go:484-515 | The two scans decide: enabled, not stopping, active targets on both sides, and an interruption, a restart, a newly active or a no longer active target. |
| `Lifecycle.MustRebalanceIffActiveChanged` | ais/prxcycle.go:484-515 | For every transaction the scans find something if and only if the set of active targets has changed. |
| `Lifecycle.TypeChangeGoesUnnoticed` | ais/prxcycle.go:484-515 | For arbitrary maps they may not: an active proxy that becomes an active target of the same ID goes unnoticed. |
| `Lifecycle.StopMaintRebalancesIffActivated` | ais/prxcycle.go:958-982 | Counting is enough for stop-maintenance: it rebalances if and only if a target was activated and two or more are active. |
| `Lifecycle.StopUndoesStart` | ais/prxcycle.go:927-956 | Start-maintenance, with or without its completion, then stop-maintenance of the same batch: flags of targets are restored if and only if none of the batch was in maintenance before, and the active set if and only if those that were are being decommissioned. |
| `Lifecycle.RunKeeps` | ais/clustermap.go:731-765 | Over every run of transactions all published maps are sound, and an equal version is an equal map. |
| `Lifecycle.RunStaysFull` | ais/clustermap.go:169-191 | Over every run the IC has three members or every proxy that can be elected, if it starts like that. |
| `SmapOwner.SmapX.SetNodeFlags` | ais/clustermap.go:469-487 | In place: the flags of one node and the version change, and nothing else; maintenance takes the node out of the IC. |
| `SmapOwner.SmapX.ClearNodeFlags` | ais/clustermap.go:490-493 | In place: clears flags of one node only. |
| `SmapOwner.SmapX.DelNode` | ais/clustermap.go:330-344 | Removes one node of either type, if present, with a new version. |
| `SmapOwner.SmapX.PutProxy` | ais/clustermap.go:346-372 | Adds or replaces a proxy, by one or two versions. |
| `SmapOwner.SmapX.PutTarget` | ais/clustermap.go:346-372 | Adds or replaces a target, by one or two versions. |
| `SmapOwner.SmapX.Clone` | ais/clustermap.go:374-388 | A clone has the same value and shares no object with the original. |
| `SmapOwner.SmapX.UnstaffIC` | ais/clustermap.go:194-203 | Removes one IC member other than the primary exactly if there is one. |
| `SmapOwner.SmapX.StaffIC` | ais/clustermap.go:169-191 | The loop over the proxies, in any order, establishes the staffing relation of which `StaffingIsOk` speaks. |
| `SmapOwner.SmapX.DropNodes` | ais/kalive.go:354-402 | The keepalive loop: removal and staffing node by node. |
| `SmapOwner.SmapX.RunPre` | ais/prxcycle.go:318-388 | Every callback: when it refuses, in which case the map is as it was, and what it makes of the map otherwise, as of `PreOkIs` and `StepIs`. |
| `Primary.Owner.Modify` | ais/clustermap.go:731-765 | Copy on write: only the reference to the published map is written, so that earlier maps never change; a failed callback or save publishes nothing; success publishes new objects throughout and at most one new RMD version, exactly when the active targets call for it. |
| `Primary.Owner.PublishedIsSound` | ais/clustermap.go:731-765 | Whatever is published is sound and has the same primary. |
| `Primary.Owner.PublishedAreOrdered` | ais/clustermap.go:731-765 | Of any two published maps the later one has the same version only if it is the same map. |
| `Primary.Owner.Post` | ais/prxcycle.go:390-409 | The callbacks that start a rebalance do so exactly when the set of active targets has changed (and, for joins, when the cluster can rebalance). |
| `Batches.SelectNodes` | ais/prxcycle.go:98-174 | Which nodes of a request are selected, in order: all but those already in maintenance and done with it; and exactly when the request is refused as a whole: a node missing, the primary itself, one being decommissioned, or a rebalance running while a node in maintenance is taken further. |
| `Batches.RmNodesFinal` | ais/prxcycle.go:556-645 | The last step is at most one transaction, if and only if there is something to publish: removal of exactly the nodes of the batch that are still there, or, after a rebalance, the completion mark for exactly the targets among them. It fails exactly if that is refused or cannot be saved, unless others have removed all of the nodes. |
| `Batches.RmTargets` | ais/prxcycle.go:244-316 | The mark of the whole batch in one transaction, then the last step right away unless a rebalance has started, which is exactly if one is wanted and the active targets have changed. |
| `Batches.RmNode` | ais/prxcycle.go:81-242 | Exactly how an operation ends, interleaved with joins and keepalive removals at every step. All or nothing: a refused request publishes nothing; otherwise one transaction marks exactly the selection, never the primary, unless all of it is in maintenance or the removal is unsafe; it starts a rebalance exactly if that is wanted and active targets change, and otherwise the last step follows. |
| `Batches.SelectReturning` | ais/prxcycle.go:762-802 | The nodes of a request that are in maintenance; a missing node or one being decommissioned refuses the request. |
| `Batches.StopMaintenance` | ais/prxcycle.go:745-925 | Exactly how it ends: one transaction for all selected nodes or none; why none; and when it starts a rebalance. |
| `Membership.StepInv` | ais/prxcycle.go:60-74 | Every step of every operation keeps the invariant of admission, lock and checks. |
| `Membership.AdmissionIsSafe` | ais/prxcycle.go:60-74 | Over every run: at most one administrative operation is in flight and the flag says so; and the first publication of a batch with targets (putting them in maintenance, taking them out, or removing them unsafely) never happens while a rebalance runs. |
| `Membership.GivesUp` | ais/prxcycle.go:72-74 | Until it publishes, an operation can be given up at any point, and then lets go of lock and flag and leaves no trace. |
| `Membership.RunningIs` | ais/prxcycle.go:390-409 | Over every run the rebalances running are those started and not done. |
| `Membership.AdmissionIsExclusiveIff` | ais/pclupost.go:431-482 | Exactly when no rebalance other than its own runs while an operation is admitted, throughout a run: when no node that joins on its own starts one while an operation is admitted. |
| `Membership.BatchesAreQuiet` | ais/prxcycle.go:556-645 | In every such run neither publication of a batch, the mark and the removal, happens during a rebalance. |
| `Membership.SelfJoinSlipsIn` | ais/pclupost.go:742-768 | In other runs the removal may: a run in which a self-join starts a rebalance between the two publications of a batch. |
| `Keepalive.Retry` | ais/kalive.go:411-454 | The retry loop over every script of ticks, heartbeats, answers and signals: which event decides and how; a node is given up on only after the full number of failures, all of them in silence. |
| `Keepalive.VerdictIsUnique` | ais/kalive.go:411-454 | One script, one verdict. |
| `Keepalive.GivenUpAfter` | ais/kalive.go:410-410 | The number of unanswered requests is two plus the retries, and three if there are none; the comment in the code says so for positive numbers of retries. |
| `Keepalive.Palive.PingAll` | ais/kalive.go:232-276 | In any order, with early exits after a stop: the round is stopped if and only if some ping is; unless it is, the channel gains exactly the nodes that failed. |
| `Keepalive.Palive.UpdateSmap` | ais/kalive.go:232-293 | A stopped round removes nobody; any other removes exactly the nodes that failed together with leftovers of earlier rounds, and leaves nodes behind only when no longer primary. |
| `Keepalive.Rounds` | ais/kalive.go:232-293 | Over any number of rounds, exactly which nodes each removes: none if it is stopped or not the primary's any more, and otherwise those that failed in that very round, and those that failed in an earlier one since which every round has run to its end under another primary. |
| `Keepalive.LeftoverRemovesHealthyNode` | ais/kalive.go:354-358 | Otherwise not: a run in which a round that is not the primary's leaves a node in the channel, and a later round removes the node although it answers. |
| `Notifs.MergeKeepsDisjointIff` | ais/prxnotif.go:677-733 | Applying a snapshot keeps the tables disjoint if and only if every UUID that the snapshot lists in both is already known. |
| `Notifs.MergeIsJoin` | ais/prxnotif.go:677-733 | On disjoint tables it is a least upper bound in which finished beats running. |
| `Notifs.MergeLaws` | ais/prxnotif.go:677-733 | It is idempotent, commutative and associative. |
| `Notifs.MergeAllIs` | ais/prxnotif.go:677-733 | After any sequence of snapshots: finished is what anybody ever reported as finished, running the rest of what is known. |
| `Notifs.Convergence` | ais/prxnotif.go:677-733 | Two IC members, each with tables of its own, that have seen the same snapshots between them, in any order and any number of times, end with the same tables, provided that whoever mentions a UUID that somebody lists twice lists it twice as well. |
| `Notifs.ConvergenceIff` | ais/prxnotif.go:677-733 | This is the exact condition: snapshots converge in every order and multiplicity if and only if it holds. |
| `Notifs.DisjointAreConsistent` | ais/prxnotif.go:677-733 | In particular, snapshots none of which lists a UUID twice converge. |
| `Notifs.OrderMatters` | ais/prxnotif.go:677-733 | Whenever it fails, two orders of the same snapshots lead to different tables. |
| `Notifs.SnapshotInBetween` | ais/prxnotif.go:536-617 | A snapshot taken while the tables are updated leaves another node with disjoint tables if and only if that node knows all of the UUIDs being moved. |
| `NotifTables.Listeners.Add` | ais/prxnotif.go:794-810 | The sharded table behaves as one map, whose size is the counter; an existing entry stays. |
| `NotifTables.Listeners.Del` | ais/prxnotif.go:812-828 | Removes one entry and counts it exactly if it is there. |
| `NotifTables.Listeners.Exists` | ais/prxnotif.go:831-835 | Membership in the one map, from a look at one shard. |
| `NotifTables.Registry.Apply` | ais/prxnotif.go:677-733 | The three loops over the tables compute the merge of the snapshot; entries known before are not replaced, and new ones are the listeners of the snapshot. |
| `NotifTables.Registry.Done` | ais/prxnotif.go:359-366 | Moves a listener at most once. |
| `NotifTables.Registry.Spare` | ais/prxnotif.go:578-596 | The loop that starts over after every deletion terminates, and spares exactly the rebalances with a cause whose inactive node is still in the map. |
| `NotifTables.Registry.ListenSmapChanged` | ais/prxnotif.go:536-617 | Moves the listeners that wait for inactive nodes, all that must go and none that must not, aborted; nothing else moves, no UUID is lost or duplicated, the counters add up; and what the tables are in between. |
| `NotifTables.Find` | ais/prxnotif.go:841-864 | The search over all shards, each in any order: it finds something if and only if something in the table matches, something running if no match has finished, and the latest if all have. |
| `NotifTables.FindsRunningIff` | ais/prxnotif.go:837-864 | For a given order, a search finds something if and only if something matches, and something running if and only if, in every shard, a running match comes first. |
| `NotifTables.AlwaysFindsRunningIff` | ais/prxnotif.go:837-864 | In every order: something running is always found if and only if no match has finished. The comment in the code promises a running one whenever there is one. |
| `NotifTables.FindsLatest` | ais/prxnotif.go:837-864 | Among finished matches the latest is found. |
| `NotifTables.FinishedHidesRunning` | ais/prxnotif.go:837-864 | Tables for which that promise fails, within a shard and across shards. |
| `BucketMeta.UpdateKeeps` | ais/bucketmeta.go:123-173 | Every update raises the version, keeps the BIDs of existing buckets, issues BIDs not behind the version, keeps all BIDs apart, and leaves buckets alone that it does not name. |
| `BucketMeta.RunIs` | ais/prxtxn.go:340-357 | What every callback does to the buckets, properties and kind of BID included, and when and how it fails. |
| `BucketMeta.BidsAreNeverReissued` | ais/bucketmeta.go:123-141 | Over every run no BID is issued that any bucket ever had. |
| `BucketMeta.VersionsIdentify` | ais/bucketmeta.go:329-347 | Over every run a version identifies the content. |
| `Txn.BeginValidateXid` | ais/prxtxn.go:92-117 | The begin phase succeeds if and only if no target fails and all job IDs, from the first non-empty one on, are the same. |
| `Txn.Commit` | ais/prxtxn.go:119-149 | One job ID if the targets agree, and otherwise all of theirs in ascending order, each once; no ID after a failure. |
| `BmdObjects.BucketMD.Add` | ais/bucketmeta.go:123-141 | In place: adds a bucket that is not there, with a BID of the current version, and raises the version. |
| `BmdObjects.BucketMD.Set` | ais/bucketmeta.go:151-173 | In place: new properties under the old BID. |
| `BmdObjects.BucketMD.Clone` | ais/bucketmeta.go:175-198 | A clone has the same value and shares no properties with the original. |
| `BmdObjects.BucketMD.RunPre` | ais/prxtxn.go:340-357 | Every callback on objects does what it does on values: refuse, terminate, panic or update. |
| `Txn.Owner.Begin` | ais/prxtxn.go:79-90 | The begin phase succeeds if and only if no target fails, and a failure is followed by one abort. |
| `Txn.Owner.Modify` | ais/bucketmeta.go:320-347 | Copy on write: only the reference to the published metadata is written, so that earlier metadata never changes; nothing is published unless the callback succeeds, does not terminate, and the result can be saved. |
| `Txn.Owner.TwoPhase` | ais/prxtxn.go:224-338 | The steps that transactions share, with others at work in between: what is broadcast, when the update takes place, and what it is applied to. |
| `Txn.Owner.CreateBucket` | ais/prxtxn.go:288-338 | Exactly when the bucket is there in the end: it was, or it was added and not taken back; taken back after a failed commit if and only if that can be saved. An added one has the properties asked for and a new BID of its kind. What is broadcast: commit only after all targets have begun and the update is saved, and no abort after a failed commit. Other transactions may run in between. |
| `Txn.Owner.DestroyBucket` | ais/prxtxn.go:897-944 | The bucket goes if and only if all targets begin and the update can be saved, whatever becomes of the commit; what is broadcast. |
| `Txn.Owner.MakeNCopies` | ais/prxtxn.go:360-438 | After a failed commit the properties are those of before if and only if undoing can be saved; nothing but mirroring ever changes. |
| `Txn.Owner.SetBprops` | ais/prxtxn.go:441-539 | The new properties stay even after a failed commit; the BID never changes. |
| `Txn.Owner.RenameBucket` | ais/prxtxn.go:542-613 | The old bucket is marked and keeps its BID, the new one has the properties and a new BID; a failed commit leaves both. |
| `Txn.Owner.CopyBucket` | ais/prxtxn.go:617-666 | A destination that was there is never touched; one created has the properties of an ais:// source, or else the inherited ones, and a new BID; after a failed commit it is removed if and only if its removal can begin and be saved; a failed dry run removes the destination that somebody else has created meanwhile. |
| `Confirm.FoldIsNewest` | ais/htcommon.go:653-670 | In every order of reports the version kept is the newest of all, with the primary it was reported with. |
| `Confirm.CountAtMostNaming` | ais/htcommon.go:653-670 | Confirmations never exceed the number of nodes that have named the kept primary. |
| `Confirm.CountIs` | ais/htcommon.go:653-670 | Exactly what is counted: reports of the kept version and primary, plus what was carried over from older versions. |
| `Confirm.ConfirmedMeansReportedIff` | ais/htcommon.go:653-670 | In every order of the reports the confirmations are those of the newest version, if and only if no report that counts names, at an older version, the primary of a newest report that is not voting. |
| `Confirm.CarryingOrder` | ais/htcommon.go:653-670 | Whenever there is such a pair of reports, some order of them counts the older one towards the newest version. |
| `Confirm.ConfirmedMeansReported` | ais/earlystart.go:26-26 | Without such a pair there are as many confirmations as nodes that have reported the kept version. |
| `Confirm.DecisionsRestOnThree` | ais/earlystart.go:139-155 | To remain primary in spite of a newer map, or to rejoin under another primary, takes three different nodes that have named that primary; three that have reported that map are enough; and without a newer map a node remains what it is. |
| `Confirm.DecisionsIff` | ais/earlystart.go:139-155 | When no report carries over, three nodes at the newest version are exactly what either decision takes. |
| `Confirm.MaxCii.Do` | ais/htcommon.go:653-670 | One report, in place, extends the fold over all reports so far. |
| `Confirm.MaxCii.Bch` | ais/htrun.go:1759-1793 | Asks every node at most once and in any order, and stops early only with enough confirmations and unless all must be asked. |
| `Confirm.MaxCii.EnoughMeansNodes` | ais/htrun.go:2572-2583 | Confirmations are at most as many as the different nodes that have named the primary acted upon. |
| `Moss.Scan` | ais/pmoss_scan.go:45-122 | Fails exactly on an empty request, an item without bucket or, with colocation, without owner; otherwise returns the referenced buckets and the designated target. |
| `Moss.BucketsAre` | ais/pmoss_scan.go:101-109 | The buckets are exactly those referred to, each once, in the order of their first references. |
| `Moss.ScanCtx.SelectDT` | ais/pmoss_scan.go:137-161 | In place: the selection after one more owner. |
| `Moss.SelectionLeads` | ais/pmoss_scan.go:137-161 | The designated target owns the most objects, was the first to, and its score is how many, although counters per target are kept only from the second target on. |
| `Auth.RevokedIsNotAccepted` | ais/prxauth.go:171-221 | Over every interleaving of validations, updates and clean-ups: a validation that starts after its token has been revoked does not accept it, except possibly in the instant at which the token expires. |
| `Auth.LateIsAcceptedIff` | ais/prxauth.go:171-221 | Exactly when one is accepted in that instant: by a look at the cache that still has the token. |
| `Auth.AcceptedInTheInstant` | ais/prxauth.go:171-221 | A run in which this happens: a validation in flight puts the revoked token back into the cache, and clean-up drops it from the list as it expires. |
| `Auth.ListIsExact` | ais/prxauth.go:554-611 | Over every run the list has only revoked tokens, and all of them that have not expired. |
| `AuthTables.RevokedTokens.Update` | ais/prxauth.go:554-582 | In place: refused if and only if not newer; otherwise the version grows and exactly the new tokens are added. |
| `AuthTables.RevokedTokens.Cleanup` | ais/prxauth.go:584-611 | In place: drops exactly what the parser finds expired and returns the rest. |
| `AuthTables.TokenCache.Set` | ais/prxauth.go:491-496 | The sharded cache behaves as one map, for every hash function and number of shards. |
| `AuthTables.TokenCache.GetClaims` | ais/prxauth.go:483-489 | A look at one shard is a look at the one map. |
| `AuthTables.TokenCache.Delete` | ais/prxauth.go:498-503 | Deletes exactly one token. |
| `AuthTables.TokenCache.DeleteMultiple` | ais/prxauth.go:505-525 | Grouping the tokens by shard and visiting the shards in any order removes exactly those tokens. |
| `Auth.CleanupIsInvisible` | ais/prxauth.go:584-611 | In every reachable state a clean-up changes what a validation that starts now would accept in one case only: a cached token in the instant at which it expires. |
| `Auth.OldListsChangeNothing` | ais/prxauth.go:554-582 | Once a list has been received, an older or equal one changes nothing, however many steps later it arrives. |
| `Auth.NewListsAreTaken` | ais/prxauth.go:554-582 | A list with a higher number than all before it is taken in full, and its number becomes the version. |
| `Auth.CacheIs` | ais/prxauth.go:171-221 | Over every run the cache has exactly the tokens that have been parsed as valid and not been taken out since, as revoked or as expired. |
| `Auth.DecidedBy` | ais/prxauth.go:171-221 | In every state of every run, exactly what accepts and what rejects; a token never revoked is rejected only for having expired or by the parser. |

## Left out

- Elections, change of the primary on request, and merging of clusters: a run of transactions has one primary, and a receiver belongs to one cluster.
- The effects of metadata on a node (mountpaths, rebalance itself, jobs), and what targets do with a metasync message: a target may answer anything.
- Notifications of metasync (`notify`), aggregated responses, and the encoding of metadata; a node that restarts with older metadata than it has acknowledged.
- The remote flow of list-objects, prefixes, properties other than name and status, and aborted listings; a target's inventory is assumed not to change while it is listed.
- Batches.RmNode: a node that removes itself meanwhile is covered as a keepalive removal of that node, which has the same effect on the map; the answers of the nodes to the final request are not modelled, since the code proceeds whatever they are.
- Batches.StopMaintenance: whether the health checks that precede the transaction succeed is a parameter; their retries are not modelled.
- Membership.AdmissionIsSafe: the completion mark after a rebalance, keepalive and nodes that remove themselves are updates of kind `Other`, not subject to admission; rebalance listeners are those started by joins, by stop- and start-maintenance and by cluster-wide rebalance; those resumed at startup are not part of the state machine.
- Keepalive.Palive.UpdateSmap: heartbeats that arrive after a node has been given up on are not looked at by the code either; the capacity of the channels is not modelled.
- NotifTables.Registry.ListenSmapChanged: callbacks of listeners and their end times are not modelled.
- Providers and namespaces of buckets are part of a bucket's name here. BIDs are pairs of serial and bit, so that serials do not run into the bit.
- Txn.Owner.CreateBucket: while a bucket transaction is in progress, others do not update the same bucket; the code holds a lock on the bucket's name, or leaves this open. Callbacks that find the bucket gone panic in the model as they do in the code.
- Txn.Owner.CopyBucket: copying a list of objects has the same steps, except that it validates job IDs in the begin phase and does not abort after a failed commit; removal of the destination by a later notification is not modelled.
- Auth.RevokedIsNotAccepted: signatures and keys are behind the parser's verdict; the parser is taken to reject a token from the instant of its expiration on. The state machine has one cache; that the sharded one behaves like it is a matter of `AuthTables.dfy`.
- Erasure coding, promotion, rate limiting, the S3 front end, statistics, and everything on targets that is not a listing.
