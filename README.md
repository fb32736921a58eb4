# Cluster labelling of the SPPARKS cluster diagnostic, modelled in Dafny

This project models the cluster-labelling pipeline of `DiagCluster` in
SPPARKS (`src/diag_cluster.cpp`). It is connected-component labelling of
lattice sites spread over several processes (ranks). Each rank:

1. resets its site labels;
2. flood-fills its owned sites with an explicit stack (`cluststack`),
   appending one record per cluster to its cluster table (`clustlist`);
3. turns local labels into global ids with an MPI scan of the per-rank
   cluster counts;
4. exchanges ghost labels and records which foreign clusters each local
   cluster touches;
5. packs its table into a flat integer buffer.

The coordinator (rank 0) then:

1. unpacks the other ranks' buffers behind its own table, in rank order;
2. merges the records that belong to one physical cluster with a second
   stack-based flood fill over the neighbour ids.

The dump looks each site's global id up in the merged table.

Modules:

- `Collectives` (collectives.dfy): MPI_Allreduce (SUM, MAX) and MPI_Scan as
  pure functions over the per-rank inputs. It also holds the id-offset
  arithmetic and the disjointness and coverage of the id ranges.
- `ClusterRecords` (cluster_records.dfy): the `Cluster` record, the packed
  buffer format `[global_id, volume, nneigh, neigh...]*` (`Encode`), the
  receive loop's reading of it (`Decode`), and the round trip between the
  two.
- `SiteLabels` (site_labels.dfy): counting sites that carry a label.
- `Reachability` (reachability.dfy): walks between owned sites through
  connected neighbours, and the reachability relation whose classes the
  local flood fill computes.
- `AppLattice` (app_lattice.dfy): the two application callbacks,
  `push_connected_neighbors` and `connected_ghosts`, over a lattice given
  as neighbour lists and a per-site value. Sites are connected when their
  values are equal.
- `MergeSpec` (merge_spec.dfy): what the coordinator's merge does, stated
  over sequences.
  - A ghost assignment `grp` maps each record to the record it was folded
    into.
  - The merge's state is described at every step by a predicate: `MergeInv`,
    `GroupInv`, `FoldInv` or `GroupDone`.
  - Each transition has a lemma.
  - Paths along the neighbour lists (`LinkReach`) give the relation whose
    connected components the merge's groups are.
- `DiagClusterRank` (diag_cluster.dfy): the per-rank object as a class.
  - Fields: the `clusterIds` array, and the `clustlist` and `cluststack`
    sequences.
  - Its methods model each step of `generate_clusters`, plus `add_cluster`,
    `free_clustlist` and the id lookup of `dump_clusters`.
  - The loops are imperative and carry the invariants stated above.
- `Pipeline` (pipeline.dfy): how the ranks fit together.
  - After the renumbering on every rank and the gather, the record with
    global id g sits at index g - 1 of the coordinator's table.
  - Hence every neighbour id names a record, and the merge's indexing
    `neighs[j] - idoffset` with idoffset = 1 is in bounds.
  - The dumped ids agree exactly when the merge grouped the records, and
    (with symmetric links) exactly when a chain of links joins them.

Where the code and its design description differ, the model follows the
code:

- **Id offset.** The offset is computed as `inclusive scan - ncluster + 1`,
  not as an exclusive prefix sum. `Collectives.IdOffsetIsExclusivePrefix`
  proves the two equal.
- **When volume is counted and zeroed.** The merge adds a neighbour's volume
  and zeroes it when the neighbour is pushed. It does not do so when the
  neighbour is popped.
- **Direction of links.** The merge follows neighbour lists as directed
  links. What it computes is a closed grouping only when the links are
  symmetric, so those merge properties are stated under that condition.
  The same holds for the local fill: `push_connected_neighbors` looks only
  at the popped site's own neighbour list, so the labels are the connected
  components when adjacency is symmetric (`SymmetricNeighbours`).

## Model

| member | source | states |
|---|---|---|
| Collectives.Max | src/diag_cluster.cpp:281 | the MPI_MAX reduction is at least every rank's value and equals one of them |
| Collectives.ScanIsPrefixSum | src/diag_cluster.cpp:248 | MPI_Scan on rank r is the sum of the values of ranks 0..r |
| Collectives.IdOffsetIsExclusivePrefix | src/diag_cluster.cpp:248-249 | `scan - ncluster + 1` is 1 plus the clusters of the earlier ranks; the rank's last id is the inclusive prefix sum |
| Collectives.CoordinatorOffset | src/diag_cluster.cpp:248-249 | rank 0's first global id is 1 |
| Collectives.PrefixSumMonotone | src/diag_cluster.cpp:248 | with nonnegative counts, prefix sums never decrease |
| Collectives.IdRangesDisjoint | src/diag_cluster.cpp:248-252 | the id range of an earlier rank ends before that of a later rank begins, so no id is handed out twice |
| Collectives.IdRangesCoverPrefix | src/diag_cluster.cpp:248-252 | the ranges of ranks 0..k-1 together are exactly the ids 1..(their cluster count) |
| Collectives.IdRangesCover | src/diag_cluster.cpp:246-252 | the ranges of all ranks together are exactly 1..nclustertot |
| ClusterRecords.EncodeAppend | src/diag_cluster.cpp:286-294 | packing one more record appends its `[id, volume, nneigh, neigh...]` to the buffer |
| ClusterRecords.EncodeSize | src/diag_cluster.cpp:275-279 | the packed buffer has exactly me_size = Σ(3 + nneigh) ints |
| ClusterRecords.DecodeEncode | src/diag_cluster.cpp:286-294 | round trip: the receive loop reads back exactly the packed records, in order |
| ClusterRecords.EncodeDecode | src/diag_cluster.cpp:312-320 | every buffer the receive loop accepts is the packing of what it reads |
| ClusterRecords.DecodeFirst | src/diag_cluster.cpp:313-318 | a nonempty readable buffer starts with one record's encoding followed by a readable rest |
| ClusterRecords.ReadRecord | src/diag_cluster.cpp:313-318 | one turn of the receive loop at cursor m reads the next packed record in bounds and leaves the cursor at the encoding of the rest |
| ClusterRecords.MoveFirst | src/diag_cluster.cpp:316-319 | appending the record read keeps table-plus-unread unchanged and moves its volume into volsum |
| ClusterRecords.EncodeConcat | src/diag_cluster.cpp:286-294 | packing two tables back to back is packing their concatenation |
| ClusterRecords.SumVolumesConcat | src/diag_cluster.cpp:319 | the volume added by unpacking two tables is the sum of their volumes |
| ClusterRecords.ConcatPrefixStep | src/diag_cluster.cpp:305-321 | receiving one more rank's table appends its records after those of the earlier ranks and adds its volume |
| ClusterRecords.SumVolumesUpdate | src/diag_cluster.cpp:364-366 | overwriting one record changes the total volume by the difference of the volumes |
| ClusterRecords.PackedSizePrefix | src/diag_cluster.cpp:286-294 | the ints written for the first i records never exceed me_size, so writes stay inside ibufclust |
| SiteLabels.CountOfUpdate | src/diag_cluster.cpp:232 | labelling one site moves it from the count of its old label to that of its new one |
| SiteLabels.CountOfUniform | src/diag_cluster.cpp:206-213 | when every owned slot carries the reset label 0, the number of unvisited sites is nlocal |
| Reachability.ReachSelf | src/diag_cluster.cpp:227-232 | a seed site reaches itself, so it belongs to its own cluster |
| Reachability.ReachStep | src/diag_cluster.cpp:239 | a site pushed as a connected owned neighbour of a reachable site is reachable |
| Reachability.ReachTrans | src/diag_cluster.cpp:234-240 | reachability composes along the search: two walks that meet join into one |
| Reachability.StepBack | src/diag_cluster.cpp:239 | with symmetric adjacency a connected step can be taken in the other direction |
| Reachability.ReachBack | src/diag_cluster.cpp:234-240 | with symmetric adjacency reachability is symmetric, so a cluster is the same from any of its sites |
| AppLattice.PushConnectedNeighbors | src/diag_cluster.cpp:239 | the stack grows by exactly the unlabelled connected neighbours of the popped site; each is labelled on push, no other label changes, and the label counts move accordingly |
| AppLattice.ConnectedGhosts | src/diag_cluster.cpp:262-265 | the record of site i's cluster gains, without duplicates, the differing ids of its connected ghost neighbours; nothing else changes |
| MergeSpec.CountNonzeroUpdate | src/diag_cluster.cpp:364-366 | overwriting one record moves it into or out of the count of nonzero records (zeroing a nonzero record lowers it by one) |
| MergeSpec.GroupSumUpdate | src/diag_cluster.cpp:362-366 | folding a record into a group moves its original volume into that group's sum |
| MergeSpec.PushDecision | src/diag_cluster.cpp:362-363 | during a group's search a neighbour index is in bounds, belongs to no other group, and has nonzero volume exactly when not yet reached |
| MergeSpec.TracksStep | src/diag_cluster.cpp:364-366 | overwriting a record's id with its representative's original id keeps every reached record tracking its representative |
| MergeSpec.SeedStep | src/diag_cluster.cpp:351-354 | pushing an unreached record and zeroing it starts a group represented by that record |
| MergeSpec.FoldStep | src/diag_cluster.cpp:362-367 | pushing a neighbour with nonzero volume folds it into the group: id set to the group's, volume zeroed and added to vol |
| MergeSpec.PopStep | src/diag_cluster.cpp:356-359 | the popped record is the one whose neighbours are scanned next |
| MergeSpec.CloseStep | src/diag_cluster.cpp:360-369 | after the scan, every neighbour of the popped record is in its group |
| MergeSpec.FinishStep | src/diag_cluster.cpp:370-371 | with the stack empty, the group is closed and its representative receives its total volume |
| MergeSpec.SkipStep | src/diag_cluster.cpp:343-345 | a record met with volume 0 was already folded into an earlier group |
| MergeSpec.StartUnreached | src/diag_cluster.cpp:343-347 | a record met with nonzero volume was not reached before |
| MergeSpec.GroupSumAtLeast | src/diag_cluster.cpp:370 | with positive volumes, a group's volume is at least its representative's |
| MergeSpec.GroupStart | src/diag_cluster.cpp:346-354 | seeding record i establishes the group loop's state, with vol = its volume |
| MergeSpec.PopToFold | src/diag_cluster.cpp:356-359 | popping the top starts the neighbour scan in the right state |
| MergeSpec.FoldTarget | src/diag_cluster.cpp:362 | `neighs[j] - idoffset` indexes the table |
| MergeSpec.FoldPush | src/diag_cluster.cpp:363-367 | one pushed neighbour: the scan's state holds for the next neighbour; the count of nonzero records falls by one per push; the total volume plus vol is unchanged |
| MergeSpec.FoldSkip | src/diag_cluster.cpp:363 | one skipped neighbour: it was already in the group |
| MergeSpec.FoldNext | src/diag_cluster.cpp:362-368 | one neighbour: its index is in bounds and the scan's state advances past it, both when it is pushed and when it is skipped |
| MergeSpec.FoldToGroup | src/diag_cluster.cpp:360-369 | at the end of the scan the group loop's state holds again |
| MergeSpec.GroupEnd | src/diag_cluster.cpp:370 | storing vol completes the group: volume conserved, records after i unreached, and (good links) every record up to i finished |
| MergeSpec.MergeStart | src/diag_cluster.cpp:335-340 | before the outer loop nothing is reached and the counts are 0 |
| MergeSpec.MergeSkip | src/diag_cluster.cpp:343-345 | skipping a zero-volume record keeps the outer loop's state |
| MergeSpec.MergeGroupStep | src/diag_cluster.cpp:347-371 | a completed group advances the outer loop's state, ncluster_reduced and volsum |
| MergeSpec.MergeEnd | src/diag_cluster.cpp:340-372 | after the outer loop all records are settled, ncluster_reduced counts the nonzero records and volsum is the original total |
| MergeSpec.LinkReachSelf | src/diag_cluster.cpp:351-354 | a record that starts a group reaches itself through the links |
| MergeSpec.LinkReachStep | src/diag_cluster.cpp:362-367 | a record listed by a reachable record is reachable |
| MergeSpec.LinkReachTrans | src/diag_cluster.cpp:356-369 | paths along the neighbour lists compose |
| MergeSpec.LinkReachBack | src/diag_cluster.cpp:362 | with symmetric links a path can be walked backwards |
| MergeSpec.SeedConnected | src/diag_cluster.cpp:351-354 | starting a group keeps every reached record reachable from its representative |
| MergeSpec.FoldConnected | src/diag_cluster.cpp:362-367 | folding a neighbour of a group member keeps every reached record reachable from its representative |
| MergeSpec.SettledClosed | src/diag_cluster.cpp:340-372 | after the merge every record's neighbours are in its group |
| MergeSpec.PathShareGroup | src/diag_cluster.cpp:360-369 | with closed groups, every record along a path of links is in the group of the path's start |
| MergeSpec.GroupsAreComponents | src/diag_cluster.cpp:331-373 | after the merge with symmetric links, two records share a group exactly when a path of links joins them: the groups are the connected components |
| MergeSpec.LinkedShareId | src/diag_cluster.cpp:360-369 | after the merge, two records that list each other carry the same global id |
| MergeSpec.MergedIdsAgree | src/diag_cluster.cpp:353-365 | after the merge with ids = index + idoffset, two records carry the same id exactly when they are in the same group, and that id is the representative's |
| MergeSpec.RepresentativesNonzero | src/diag_cluster.cpp:370-371 | after the merge with positive volumes, a record has nonzero volume exactly when it is a representative, and then at least its own volume |
| DiagClusterRank.DiagCluster.constructor | src/diag_cluster.cpp:123-124 | cluster_ids spans nlocal + nghost slots; the table and stack start empty |
| DiagClusterRank.DiagCluster.FreeClustlist | src/diag_cluster.cpp:488-499 | the table is empty and ncluster is 0 |
| DiagClusterRank.DiagCluster.AddCluster | src/diag_cluster.cpp:391-399 | ncluster grows by one, the new record is last, earlier records unchanged |
| DiagClusterRank.DiagCluster.ResetLabels | src/diag_cluster.cpp:206-213 | every ghost slot holds -1 and every owned slot 0 |
| DiagClusterRank.DiagCluster.LocalFill | src/diag_cluster.cpp:215-243 | every owned site carries a label in 1..ncluster; record k-1 has id k, no neighbours, and as volume the count of sites labelled k (at least 1); the volumes add up to volsum == nlocal; every site is reachable from the seed of its label; with symmetric adjacency connected neighbours share a label and two owned sites share a label exactly when one reaches the other |
| DiagClusterRank.DiagCluster.FillSite | src/diag_cluster.cpp:221-243 | one turn of the loop over owned sites: afterwards site i is visited, volsum counts the visited sites, finished clusters are closed under connections, and every labelled site is reachable from its label's seed |
| DiagClusterRank.DiagCluster.FillCluster | src/diag_cluster.cpp:227-242 | one more record; the seed gets the new label and becomes its seed; only unvisited sites are relabelled, each reachable from the seed; the volume equals the number of sites newly labelled; finished clusters stay closed under connections |
| DiagClusterRank.DiagCluster.SearchCluster | src/diag_cluster.cpp:234-240 | the search empties the stack, counts each pushed site once on pop, never changes a nonzero label, leaves every popped site's connected neighbours labelled, and keeps every labelled site reachable from its seed |
| DiagClusterRank.DiagCluster.AssignGlobalIds | src/diag_cluster.cpp:250-257 | record k gets id k + idoffset; label l becomes l - 1 + idoffset; the relabelling is injective, so the site partition is preserved |
| DiagClusterRank.DiagCluster.ExchangeGhosts | src/diag_cluster.cpp:260 | owned slots unchanged, ghost slots hold the owners' values |
| DiagClusterRank.DiagCluster.LinkGhosts | src/diag_cluster.cpp:262-265 | each record's neighbour list becomes its old ids plus those of connected ghost neighbours of its sites, still without duplicates; ids and volumes unchanged |
| DiagClusterRank.DiagCluster.CountPackedSize | src/diag_cluster.cpp:275-279 | me_size is Σ(3 + nneigh), the packed length, and 0 on the coordinator |
| DiagClusterRank.DiagCluster.Pack | src/diag_cluster.cpp:281-300 | ibufclust has maxbuf ints; a non-coordinator writes exactly the packing of its table, m == me_size, so the mismatch error cannot occur |
| DiagClusterRank.DiagCluster.Unpack | src/diag_cluster.cpp:310-320 | the records the message decodes to are appended in order and their volumes added to volsum |
| DiagClusterRank.DiagCluster.Gather | src/diag_cluster.cpp:302-321 | the table becomes the coordinator's own records followed by each rank's, in rank order |
| DiagClusterRank.DiagCluster.DumpIds | src/diag_cluster.cpp:466-468 | each site's written id is the global id of record (cluster_ids - 1) of the merged table |
| DiagClusterRank.DiagCluster.Merge | src/diag_cluster.cpp:331-373 | total volume conserved; every record carries its representative's original id; with symmetric links and positive volumes every group is closed under links and reachable from its representative through them, representatives are first-indexed and hold their group's volume, ncluster_reduced is the number of nonzero records |
| DiagClusterRank.DiagCluster.MergeRecord | src/diag_cluster.cpp:340-372 | one turn of the outer loop keeps its state |
| DiagClusterRank.DiagCluster.MergeGroup | src/diag_cluster.cpp:346-371 | one group completed, as in GroupDone |
| DiagClusterRank.DiagCluster.PopAndFold | src/diag_cluster.cpp:356-369 | one pop and scan keeps the group loop's state, and the nonzero count or the stack shrinks |
| DiagClusterRank.DiagCluster.ScanNeighbours | src/diag_cluster.cpp:360-368 | the scan of one neighbour list, as in FoldInv |
| DiagClusterRank.DiagCluster.FoldOne | src/diag_cluster.cpp:362-368 | one neighbour: pushed, relabelled, zeroed and its volume added when nonzero, skipped otherwise; the scan's state advances past it |
| DiagClusterRank.DiagCluster.SearchStep | src/diag_cluster.cpp:235-239 | one pop: vol grows by one, only unvisited sites get the current label, the stack plus unvisited count falls by one, and the search and reachability invariants are kept |
| DiagClusterRank.DiagCluster.Renumber | src/diag_cluster.cpp:215-257 | after the fill, the scan and the relabelling: idoffset = 1 + earlier ranks' clusters; record k has id k + idoffset and as volume the count of owned sites carrying it; volumes sum to nlocal; with symmetric adjacency the ids are the connected components |
| DiagClusterRank.DiagCluster.LinkBoundary | src/diag_cluster.cpp:259-265 | ghost slots take the owners' ids; each record lists, without duplicates, exactly the ids across ghost edges of its sites, all within 1..total; ids, volumes and owned labels unchanged |
| DiagClusterRank.DiagCluster.GenerateLocal | src/diag_cluster.cpp:206-300 | a rank's pass up to the send: volsum == nlocal == the table's volume; idoffset = 1 + earlier ranks' clusters; record k has id k + idoffset and as volume the count of sites carrying it; with symmetric adjacency two owned sites share an id exactly when connected; neighbour lists are the ids across ghost edges, without duplicates and within 1..total; the table is packed |
| DiagClusterRank.DiagCluster.Coordinate | src/diag_cluster.cpp:302-373 | the coordinator's gather and merge with its own idoffset (1 on rank 0): the final total volume is its own plus the received; every record tracks its group's representative; with symmetric links and positive volumes the groups are settled (closed, connected, volumes at the representatives) and ncluster_reduced counts the nonzero records |
| DiagClusterRank.PackRecord | src/diag_cluster.cpp:287-293 | the cursor advances by 3 + nneigh and the ints written are the record's encoding |
| DiagClusterRank.FillStateInitial | src/diag_cluster.cpp:206-218 | the empty table and reset labels satisfy the fill's invariant |
| DiagClusterRank.FillProgressStep | src/diag_cluster.cpp:221-243 | filling the cluster seeded at unvisited site i keeps earlier sites visited, visits i, and adds the cluster's volume to volsum |
| DiagClusterRank.FillStateFinal | src/diag_cluster.cpp:242-243 | after the loop, labels are in 1..ncluster and each record's volume is its label count |
| DiagClusterRank.SeedGrowState | src/diag_cluster.cpp:228-232 | seeding a new cluster at an unvisited site starts a search state |
| DiagClusterRank.PushKeepsGrowState | src/diag_cluster.cpp:236-239 | one pop and push keeps the search state |
| DiagClusterRank.GrowStateDone | src/diag_cluster.cpp:241 | with the stack empty, storing vol restores the fill's invariant |
| DiagClusterRank.SeedGrowClosed | src/diag_cluster.cpp:228-232 | labelling and pushing an unvisited seed keeps every finished site closed under connections |
| DiagClusterRank.PushKeepsClosed | src/diag_cluster.cpp:236-239 | one pop and push keeps every labelled site off the stack closed under connections (symmetric adjacency) |
| DiagClusterRank.ClosedWhenAllVisited | src/diag_cluster.cpp:221-243 | once every owned site is visited, connected owned neighbours share a label |
| DiagClusterRank.SeedReach | src/diag_cluster.cpp:228-232 | the seed of a new label is an owned site carrying it and reaches itself; earlier sites keep their seeds |
| DiagClusterRank.PushedReached | src/diag_cluster.cpp:236-239 | every site the pusher labels in one step is reachable from the seed through the popped site |
| DiagClusterRank.PushReach | src/diag_cluster.cpp:239 | labelling sites reachable from the current seed keeps every labelled site reachable from its seed |
| DiagClusterRank.SearchStepReach | src/diag_cluster.cpp:235-239 | one step of the search keeps every labelled site reachable from its seed |
| DiagClusterRank.FollowAlongWalk | src/diag_cluster.cpp:234-240 | when labels follow connections, every site along a walk carries the label of its start |
| DiagClusterRank.LabelsAreComponents | src/diag_cluster.cpp:221-243 | with symmetric adjacency, closed labels reachable from their seeds put two sites under one label exactly when one reaches the other |
| DiagClusterRank.FollowConnectionsShift | src/diag_cluster.cpp:254-257 | adding idoffset - 1 to every owned label keeps labels following connections and equal to the components |
| DiagClusterRank.FillDone | src/diag_cluster.cpp:242-243 | after the fill loop labels lie in 1..ncluster, each site is reachable from its label's seed, and with symmetric adjacency labels are the components |
| DiagClusterRank.GhostsWithin | src/diag_cluster.cpp:260 | after the exchange every ghost slot holds an id within 1..total |
| DiagClusterRank.GlobalVolume | src/diag_cluster.cpp:250-257 | the sites carrying global id k + idoffset are those that carried local label k + 1, so record k's volume still counts its sites |
| DiagClusterRank.LinksWithin | src/diag_cluster.cpp:262-265 | an id linked across a ghost edge is a ghost slot's value, so within 1..total |
| DiagClusterRank.SiteOfClusterLinksStep | src/diag_cluster.cpp:263-264 | the links found after site i extend those found before it by site i's |
| Pipeline.CoordinatorFirst | src/diag_cluster.cpp:305-321 | the gathered table is rank 0's table followed by the others' |
| Pipeline.GatheredPrefix | src/diag_cluster.cpp:250-252 | the first n ranks' tables hold Σ counts records, the one with id g at index g - 1 |
| Pipeline.GatheredIdsAreIndices | src/diag_cluster.cpp:362 | on the coordinator the record with global id g sits at index g - 1 |
| Pipeline.GatheredVolume | src/diag_cluster.cpp:245-246 | the gathered table's volume is voltot, the sum of the ranks' volsums |
| Pipeline.GatheredNeighbours | src/diag_cluster.cpp:305-321 | neighbour ids in 1..nclustertot stay so after the gather |
| Pipeline.GatheredWellIndexed | src/diag_cluster.cpp:362 | every `neighs[j] - idoffset` with idoffset = 1 indexes the gathered table |
| Pipeline.DumpedIdsAgree | src/diag_cluster.cpp:466-468 | after the merge, two sites are dumped with the same id exactly when their records were grouped together |
| Pipeline.DumpedIdsConnected | src/diag_cluster.cpp:466-468 | with symmetric links, two sites are dumped with the same id exactly when a chain of neighbour links joins their records |

## Left out

- MPI: the collectives, the ping/receive protocol and any concurrency or
  message ordering are left out. Their results are pure functions over
  per-rank inputs (`Collectives`), or parameters: the other ranks'
  counts, sizes and messages, and the ghost values.
- The ghost exchange `comm->all()` is not modelled as communication.
  `ExchangeGhosts` takes the owners' values as a parameter.
- The bodies of `push_connected_neighbors` and `connected_ghosts` belong to
  the application and are not part of this model. They are written here
  over a lattice whose connectivity is equality of a per-site value, and
  used only through their contracts.
- All `fprintf`/`fopen` output is left out: the summary lines after the
  merge, the dump header and text, and `write_header`. Also left out are
  the constructor's argument parsing and `error->one`/`error->all`. The
  pack mismatch is returned as the boolean `mismatch` and proved false.
- The dump's `double` buffer and the coordinates `xyz` are left out, and so
  are the persistent site ids. `DumpIds` works on the integer labels;
  `static_cast<int>` of an exactly representable label is taken as the
  identity.
- The sends on ranks other than the coordinator are not modelled, and
  neither is `delete [] ibufclust`.
- `voltot` and `nclustertot` are computed by the source but not used
  afterwards. They appear only as `Sum` in `Pipeline.GatheredVolume` and
  `Collectives.IdRangesCover`.
- Integer width: volumes, counts and ids are unbounded integers. 32-bit
  overflow is not modelled.
- `src/GPPT/var_node.cpp`, `src/diag_cluster3d.h`, `src/solve_group.h` and
  `src/app_ising_2d_8n.h` are not part of this model.
- DiagClusterRank.DiagCluster.Merge: the grouping facts (closure, connectivity,
  volumes at the representatives) are stated only when links are symmetric
  and volumes positive. Volume conservation and id tracking hold
  unconditionally.
- DiagClusterRank.DiagCluster.LocalFill: that labels follow connections and
  are exactly the connected components is stated only for symmetric
  adjacency. That every site is reachable from the seed of its label holds
  on any lattice.
- DiagClusterRank.DiagCluster.Coordinate: `WellIndexed` on the gathered
  table is a precondition. `Pipeline.GatheredWellIndexed` derives it from
  the renumbering on all ranks and from every rank's neighbour ids lying in
  1..nclustertot. `GenerateLocal` proves the latter given that the ghost
  values it receives are global ids in that range. That the exchange
  delivers such values is assumed: the communication is not modelled, and
  the ranks are not composed into one multi-rank method.
- DiagClusterRank.DiagCluster.Unpack: the message is required to decode,
  as any message packed by `Pack` does (`DecodeEncode`). The source's
  behaviour on a truncated message, reading past nrecv, is not modelled.
