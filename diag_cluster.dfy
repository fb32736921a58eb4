/**
 * The state one process keeps for the cluster diagnostic (class DiagCluster
 * of src/diag_cluster.cpp) and the steps of generate_clusters that work on
 * it. The site-label array cluster_ids is an array over owned and ghost
 * sites; the growable cluster table clustlist is a sequence of records that
 * the methods reassign; cluststack is the explicit flood-fill stack, its top
 * at the end of the sequence.
 */
module DiagClusterRank {
  import opened Collectives
  import opened ClusterRecords
  import opened SiteLabels
  import opened AppLattice
  import opened MergeSpec
  import opened Reachability

  class DiagCluster {
    const nlocal: nat
    const nghost: nat
    const clusterIds: array<int>
    var clustlist: seq<Cluster>
    var ncluster: int
    var cluststack: seq<int>

    /** Between operations the label array spans owned and ghost sites, ncluster counts the table and the stack is empty. */
    ghost predicate Valid()
      reads this
    {
      && clusterIds.Length == nlocal + nghost
      && ncluster == |clustlist|
      && cluststack == []
    }

    /** The constructor together with the allocation of cluster_ids in init. */
    constructor (nlocal: nat, nghost: nat)
      ensures Valid() && fresh(clusterIds)
      ensures this.nlocal == nlocal && this.nghost == nghost
      ensures clustlist == [] && ncluster == 0
    {
      this.nlocal := nlocal;
      this.nghost := nghost;
      clusterIds := new int[nlocal + nghost];
      clustlist := [];
      ncluster := 0;
      cluststack := [];
    }

    /** free_clustlist: the table is released and its count reset. */
    method FreeClustlist()
      requires Valid()
      modifies this
      ensures Valid()
      ensures clustlist == [] && ncluster == 0
    {
      clustlist := [];
      ncluster := 0;
    }

    /** add_cluster: the table grows by one record, placed last; earlier records are unchanged. */
    method AddCluster(id: int, vol: int, neighs: seq<int>)
      requires ncluster == |clustlist|
      modifies this
      ensures ncluster == old(ncluster) + 1 && ncluster == |clustlist|
      ensures clustlist == old(clustlist) + [Cluster(id, vol, neighs)]
      ensures cluststack == old(cluststack)
    {
      ncluster := ncluster + 1;
      clustlist := clustlist + [Cluster(id, vol, neighs)];
    }

    /** Ghost slots are set to -1 and owned slots to 0 before labelling. */
    method ResetLabels()
      requires Valid()
      modifies clusterIds
      ensures forall j :: 0 <= j < nlocal ==> clusterIds[j] == 0
      ensures forall j :: nlocal <= j < clusterIds.Length ==> clusterIds[j] == -1
    {
      for i := nlocal to nlocal + nghost
        invariant forall j :: nlocal <= j < i ==> clusterIds[j] == -1
      {
        clusterIds[i] := -1;
      }
      for i := 0 to nlocal
        invariant forall j :: 0 <= j < i ==> clusterIds[j] == 0
        invariant forall j :: nlocal <= j < clusterIds.Length ==> clusterIds[j] == -1
      {
        clusterIds[i] := 0;
      }
    }

    /**
     * The local flood fill. Afterwards every owned site carries a local label
     * in 1..ncluster, record k-1 has global id k (its local label), no
     * neighbours, and as volume the number of sites labelled k, which is at
     * least one; the volumes add up to the number of owned sites. seeds[k]
     * is the site that started cluster k + 1, and every site carrying that
     * label is reachable from it. On a lattice with symmetric adjacency the
     * labels are exactly the connected components: two owned sites share a
     * label if and only if one reaches the other.
     */
    method LocalFill(lat: Lattice) returns (volsum: int, ghost seeds: seq<int>)
      requires Valid() && lat.Valid()
      requires lat.nlocal == nlocal && lat.nghost == nghost
      modifies this, clusterIds
      ensures Valid()
      ensures forall j :: 0 <= j < nlocal ==> 1 <= clusterIds[j] <= ncluster
      ensures forall j :: nlocal <= j < clusterIds.Length ==> clusterIds[j] == -1
      ensures forall k :: 0 <= k < ncluster ==> clustlist[k] == Cluster(k + 1, CountOf(clusterIds[..], k + 1), [])
      ensures forall k :: 0 <= k < ncluster ==> clustlist[k].volume >= 1
      ensures volsum == nlocal && SumVolumes(clustlist) == volsum
      ensures lat.SymmetricNeighbours() ==> LabelsFollowConnections(lat, clusterIds[..])
      ensures |seeds| == ncluster && SeedsReach(lat, clusterIds[..], seeds)
      ensures forall j :: 0 <= j < nlocal ==> Reachable(lat, seeds[clusterIds[j] - 1], j)
      ensures lat.SymmetricNeighbours() ==> ComponentLabels(lat, clusterIds[..])
    {
      ResetLabels();
      FillStateInitial(clusterIds[..], nlocal);

      // the table restarts from empty
      ncluster := 0;
      clustlist := [];
      volsum := 0;
      seeds := [];

      // loop over all owned sites
      for i := 0 to nlocal
        invariant Valid()
        invariant FillProgress(clusterIds[..], clustlist, nlocal, i, volsum)
        invariant LabelsClosed(lat, clusterIds[..], [])
        invariant |seeds| == ncluster && SeedsReach(lat, clusterIds[..], seeds)
      {
        volsum, seeds := FillSite(lat, i, volsum, seeds);
      }
      FillDone(lat, clusterIds[..], clustlist, seeds);
    }

    /** One turn of the local fill's loop: site i starts a new cluster when it is still unvisited. */
    method FillSite(lat: Lattice, i: nat, volsum: int, ghost seeds: seq<int>) returns (volsum': int, ghost seeds': seq<int>)
      requires Valid() && lat.Valid()
      requires lat.nlocal == nlocal && lat.nghost == nghost && i < nlocal
      requires FillProgress(clusterIds[..], clustlist, nlocal, i, volsum)
      requires LabelsClosed(lat, clusterIds[..], [])
      requires |seeds| == ncluster && SeedsReach(lat, clusterIds[..], seeds)
      modifies this, clusterIds
      ensures Valid()
      ensures FillProgress(clusterIds[..], clustlist, nlocal, i + 1, volsum')
      ensures LabelsClosed(lat, clusterIds[..], [])
      ensures |seeds'| == ncluster && SeedsReach(lat, clusterIds[..], seeds')
    {
      volsum', seeds' := volsum, seeds;
      if clusterIds[i] == 0 {
        ghost var ids0, cl0 := clusterIds[..], clustlist;
        var vol;
        vol, seeds' := FillCluster(lat, i, seeds);
        volsum' := volsum + vol;
        FillProgressStep(ids0, clusterIds[..], cl0, clustlist, nlocal, i, volsum, vol);
      }
    }

    /**
     * One cluster of the local fill, seeded at the unvisited owned site i: a
     * record with the next local label is appended, and the depth-first search
     * labels every site it reaches with that label and counts it once when it
     * is popped. Only unvisited sites are relabelled, and each is reachable
     * from the seed i.
     */
    method FillCluster(lat: Lattice, i: nat, ghost seeds: seq<int>) returns (vol: int, ghost seeds': seq<int>)
      requires Valid() && lat.Valid()
      requires lat.nlocal == nlocal && lat.nghost == nghost && i < nlocal
      requires FillState(clusterIds[..], clustlist, nlocal) && clusterIds[i] == 0
      requires LabelsClosed(lat, clusterIds[..], [])
      requires |seeds| == ncluster && SeedsReach(lat, clusterIds[..], seeds)
      modifies this, clusterIds
      ensures Valid() && ncluster == old(ncluster) + 1
      ensures FillState(clusterIds[..], clustlist, nlocal)
      ensures LabelsClosed(lat, clusterIds[..], [])
      ensures seeds' == seeds + [i] && SeedsReach(lat, clusterIds[..], seeds')
      ensures clusterIds[i] == ncluster
      ensures clustlist == old(clustlist) + [Cluster(ncluster, vol, [])]
      ensures forall j :: 0 <= j < clusterIds.Length && old(clusterIds[j]) != 0 ==> clusterIds[j] == old(clusterIds[j])
      ensures vol + CountOf(clusterIds[..], 0) == old(CountOf(clusterIds[..], 0))
    {
      // push first site onto stack
      var id := ncluster + 1;
      vol := 0;
      ghost var cl := clustlist;
      AddCluster(id, vol, []);
      cluststack := cluststack + [i];
      ghost var before := clusterIds[..];
      clusterIds[i] := id;
      assert clusterIds[..] == before[i := id];
      assert clustlist == cl + [Cluster(|cl| + 1, 0, [])] && cluststack == [i];
      SeedGrowState(before, cl, i, nlocal);
      SeedGrowClosed(lat, before, i, id);
      seeds' := seeds + [i];
      SeedReach(lat, before, seeds, i);
      vol := SearchCluster(lat, seeds');
      ghost var ids := clusterIds[..];
      GrowStateDone(ids, clustlist, vol, nlocal);
      clustlist := clustlist[ncluster - 1 := clustlist[ncluster - 1].(volume := vol)];
      assert clusterIds[..] == ids;
      assert clustlist == cl + [Cluster(id, vol, [])];
    }

    /**
     * The depth-first search of one cluster, whose record is last in the
     * table: sites are popped and counted until the stack is empty, and
     * push_connected_neighbors labels and pushes the unvisited connected
     * neighbours of each popped site. Labels other than 0 never change.
     */
    method SearchCluster(lat: Lattice, ghost seeds: seq<int>) returns (vol: int)
      requires lat.Valid() && lat.nlocal == nlocal && lat.nghost == nghost
      requires clusterIds.Length == nlocal + nghost && ncluster == |clustlist|
      requires GrowState(clusterIds[..], clustlist, cluststack, 0, nlocal)
      requires GrowClosed(lat, clusterIds[..], ncluster, cluststack)
      requires |seeds| == ncluster && SeedsReach(lat, clusterIds[..], seeds)
      modifies this, clusterIds
      ensures clustlist == old(clustlist) && ncluster == old(ncluster) && cluststack == []
      ensures GrowState(clusterIds[..], clustlist, [], vol, nlocal)
      ensures LabelsClosed(lat, clusterIds[..], [])
      ensures SeedsReach(lat, clusterIds[..], seeds)
      ensures forall j :: 0 <= j < clusterIds.Length && old(clusterIds[j]) != 0 ==> clusterIds[j] == old(clusterIds[j])
      ensures vol + CountOf(clusterIds[..], 0) == old(|cluststack| + CountOf(clusterIds[..], 0))
    {
      vol := 0;
      while |cluststack| > 0
        invariant clustlist == old(clustlist) && ncluster == old(ncluster)
        invariant GrowState(clusterIds[..], clustlist, cluststack, vol, nlocal)
        invariant GrowClosed(lat, clusterIds[..], ncluster, cluststack)
        invariant SeedsReach(lat, clusterIds[..], seeds)
        invariant forall j :: 0 <= j < clusterIds.Length && old(clusterIds[j]) != 0 ==> clusterIds[j] == old(clusterIds[j])
        invariant vol + |cluststack| + CountOf(clusterIds[..], 0) == old(|cluststack| + CountOf(clusterIds[..], 0))
        decreases |cluststack| + CountOf(clusterIds[..], 0)
      {
        vol := SearchStep(lat, vol, seeds);
      }
    }

    /** One turn of the search: the top site is popped and counted, and its unvisited connected neighbours are labelled and pushed. */
    method SearchStep(lat: Lattice, vol: int, ghost seeds: seq<int>) returns (vol': int)
      requires lat.Valid() && lat.nlocal == nlocal && lat.nghost == nghost
      requires clusterIds.Length == nlocal + nghost && ncluster == |clustlist| && |cluststack| > 0
      requires GrowState(clusterIds[..], clustlist, cluststack, vol, nlocal)
      requires GrowClosed(lat, clusterIds[..], ncluster, cluststack)
      requires |seeds| == ncluster && SeedsReach(lat, clusterIds[..], seeds)
      modifies this, clusterIds
      ensures clustlist == old(clustlist) && ncluster == old(ncluster) && vol' == vol + 1
      ensures GrowState(clusterIds[..], clustlist, cluststack, vol', nlocal)
      ensures GrowClosed(lat, clusterIds[..], ncluster, cluststack)
      ensures SeedsReach(lat, clusterIds[..], seeds)
      ensures forall j :: 0 <= j < clusterIds.Length ==>
                clusterIds[j] == old(clusterIds[j]) || (old(clusterIds[j]) == 0 && clusterIds[j] == ncluster)
      ensures |cluststack| + CountOf(clusterIds[..], 0) == old(|cluststack| + CountOf(clusterIds[..], 0)) - 1
    {
      // first top, then pop
      ghost var ids0, full := clusterIds[..], cluststack;
      var ii := cluststack[|cluststack| - 1];
      cluststack := cluststack[..|cluststack| - 1];
      vol' := vol + 1;
      cluststack := PushConnectedNeighbors(lat, ii, clusterIds, ncluster, cluststack);
      PushKeepsGrowState(ids0, clusterIds[..], clustlist, full, cluststack, vol', nlocal);
      PushKeepsClosed(lat, ids0, clusterIds[..], ncluster, full, cluststack);
      SearchStepReach(lat, ids0, clusterIds[..], seeds, full, cluststack);
    }

    /**
     * Global ids: record k gets global id k + idoffset, and every owned site's
     * local label l becomes l - 1 + idoffset. The relabelling is injective, so
     * two owned sites share a global id exactly when they shared a label.
     */
    method AssignGlobalIds(idoffset: int)
      requires Valid()
      requires forall j :: 0 <= j < nlocal ==> 1 <= clusterIds[j] <= ncluster
      modifies this, clusterIds
      ensures Valid() && |clustlist| == |old(clustlist)|
      ensures forall k :: 0 <= k < ncluster ==> clustlist[k] == old(clustlist[k]).(globalId := k + idoffset)
      ensures forall j :: 0 <= j < nlocal ==> clusterIds[j] == old(clusterIds[j]) - 1 + idoffset
      ensures forall j :: 0 <= j < nlocal ==> idoffset <= clusterIds[j] < idoffset + ncluster
      ensures forall j :: nlocal <= j < clusterIds.Length ==> clusterIds[j] == old(clusterIds[j])
      ensures forall a, b :: 0 <= a < nlocal && 0 <= b < nlocal ==>
                (clusterIds[a] == clusterIds[b] <==> old(clusterIds[a]) == old(clusterIds[b]))
    {
      for i := 0 to ncluster
        modifies this
        invariant Valid() && |clustlist| == |old(clustlist)|
        invariant forall k :: 0 <= k < i ==> clustlist[k] == old(clustlist[k]).(globalId := k + idoffset)
        invariant forall k :: i <= k < ncluster ==> clustlist[k] == old(clustlist[k])
      {
        clustlist := clustlist[i := clustlist[i].(globalId := i + idoffset)];
      }
      // change site ids to global ids
      for i := 0 to nlocal
        modifies clusterIds
        invariant forall j :: 0 <= j < i ==> clusterIds[j] == old(clusterIds[j]) - 1 + idoffset
        invariant forall j :: i <= j < clusterIds.Length ==> clusterIds[j] == old(clusterIds[j])
      {
        clusterIds[i] := clustlist[clusterIds[i] - 1].globalId;
      }
    }

    /**
     * The ghost exchange (comm->all()): afterwards each ghost slot holds the
     * value its owner holds. What the owners hold is computed outside this
     * process and is passed in as ghostVals.
     */
    method ExchangeGhosts(ghostVals: seq<int>)
      requires Valid() && |ghostVals| == nghost
      modifies clusterIds
      ensures clusterIds[..nlocal] == old(clusterIds[..nlocal])
      ensures clusterIds[nlocal..] == ghostVals
    {
      for t := 0 to nghost
        invariant clusterIds[..nlocal] == old(clusterIds[..nlocal])
        invariant forall u :: 0 <= u < t ==> clusterIds[nlocal + u] == ghostVals[u]
      {
        clusterIds[nlocal + t] := ghostVals[t];
      }
      assert clusterIds[nlocal..] == ghostVals;
    }

    /**
     * Boundary linking: connected_ghosts is called for every owned site.
     * Afterwards the neighbour list of record k holds, without duplicates,
     * exactly the ids it held before plus the ids of connected ghost
     * neighbours of sites carrying id k + idoffset.
     */
    method LinkGhosts(lat: Lattice, idoffset: int)
      requires Valid() && lat.Valid()
      requires lat.nlocal == nlocal && lat.nghost == nghost
      requires forall j :: 0 <= j < nlocal ==> 0 <= clusterIds[j] - idoffset < ncluster
      modifies this
      ensures Valid() && |clustlist| == |old(clustlist)|
      ensures forall k :: 0 <= k < ncluster ==>
                clustlist[k].globalId == old(clustlist[k].globalId) && clustlist[k].volume == old(clustlist[k].volume)
      ensures forall k, g :: 0 <= k < ncluster ==>
                (g in clustlist[k].neighlist <==>
                 g in old(clustlist[k].neighlist) || SiteOfClusterLinks(lat, clusterIds[..], idoffset, k, g, nlocal))
      ensures forall k :: 0 <= k < ncluster && NoDuplicates(old(clustlist[k].neighlist)) ==> NoDuplicates(clustlist[k].neighlist)
    {
      for i := 0 to nlocal
        invariant Valid() && |clustlist| == |old(clustlist)|
        invariant forall k :: 0 <= k < ncluster ==>
                    clustlist[k].globalId == old(clustlist[k].globalId) && clustlist[k].volume == old(clustlist[k].volume)
        invariant forall k, g :: 0 <= k < ncluster ==>
                    (g in clustlist[k].neighlist <==>
                     g in old(clustlist[k].neighlist) || SiteOfClusterLinks(lat, clusterIds[..], idoffset, k, g, i))
        invariant forall k :: 0 <= k < ncluster && NoDuplicates(old(clustlist[k].neighlist)) ==> NoDuplicates(clustlist[k].neighlist)
      {
        ghost var prev := clustlist;
        clustlist := ConnectedGhosts(lat, i, clusterIds, clustlist, idoffset);
        forall k, g | 0 <= k < ncluster
          ensures g in clustlist[k].neighlist <==>
                  g in old(clustlist[k].neighlist) || SiteOfClusterLinks(lat, clusterIds[..], idoffset, k, g, i + 1)
        {
          SiteOfClusterLinksStep(lat, clusterIds[..], idoffset, k, g, i);
          if k == clusterIds[i] - idoffset {
            assert g in Elems(clustlist[k].neighlist) <==>
                   g in Elems(prev[k].neighlist) || g in LinkedGhostIds(lat, clusterIds[..], i, |lat.neighbor[i]|);
          } else {
            assert clustlist[k] == prev[k];
          }
        }
      }
    }
    /**
     * The me_size count: 3 + nneigh ints per record, the size of the packed
     * table; the coordinator sends nothing and counts 0.
     */
    method CountPackedSize(me: int) returns (meSize: int)
      requires ncluster == |clustlist|
      ensures meSize == if me == 0 then 0 else PackedSize(clustlist)
      ensures me != 0 ==> meSize == |Encode(clustlist)|
    {
      meSize := 0;
      for i := 0 to ncluster
        invariant meSize == PackedSize(clustlist[..i])
      {
        assert clustlist[..i + 1][..i] == clustlist[..i];
        meSize := meSize + 3 + |clustlist[i].neighlist|;
      }
      assert clustlist[..ncluster] == clustlist;
      EncodeSize(clustlist);
      if me == 0 {
        meSize := 0;
      }
    }

    /**
     * Packing into ibufclust, allocated with maxbuf ints (the largest me_size
     * over all ranks): a rank other than the coordinator writes its table's
     * encoding at the front, and mismatch, the condition under which the
     * source stops with "Mismatch in counting for ibufclust", is false.
     */
    method Pack(me: int, meSize: int, maxbuf: int) returns (ibufclust: array<int>, m: int, mismatch: bool)
      requires ncluster == |clustlist|
      requires meSize == (if me == 0 then 0 else PackedSize(clustlist)) && meSize <= maxbuf
      ensures fresh(ibufclust) && ibufclust.Length == maxbuf && 0 <= m <= maxbuf
      ensures !mismatch
      ensures me != 0 ==> m == meSize && ibufclust[..m] == Encode(clustlist)
      ensures me == 0 ==> m == 0
    {
      ibufclust := new int[maxbuf];
      m := 0;
      mismatch := false;
      if me != 0 {
        for i := 0 to ncluster
          invariant m == PackedSize(clustlist[..i]) && m <= maxbuf
          invariant ibufclust[..m] == Encode(clustlist[..i])
        {
          var c := clustlist[i];
          assert clustlist[..i + 1] == clustlist[..i] + [c];
          assert clustlist[..i + 1][..i] == clustlist[..i];
          PackedSizePrefix(clustlist, i + 1);
          EncodeAppend(clustlist[..i], c);
          m := PackRecord(ibufclust, m, c);
        }
        assert clustlist[..ncluster] == clustlist;
        mismatch := meSize != m;
      }
    }

    /**
     * The coordinator's receive loop for one message of nrecv ints: records
     * are read off the front (id, volume, nneigh, then the neighbour ids) and
     * appended with add_cluster until the message is used up; volAdded is
     * what the loop adds to volsum. The message is what another rank packed,
     * so it decodes, to the records table.
     */
    method Unpack(buf: seq<int>, ghost table: seq<Cluster>) returns (volAdded: int)
      requires ncluster == |clustlist| && Decode(buf) == Some(table)
      modifies this
      ensures ncluster == |clustlist| && cluststack == old(cluststack)
      ensures clustlist == old(clustlist) + table
      ensures volAdded == SumVolumes(table)
    {
      var m := 0;
      volAdded := 0;
      ghost var cl0, all := clustlist, table;
      ghost var todo := all;
      EncodeDecode(buf);
      assert buf[0..] == buf;
      while m < |buf|
        invariant 0 <= m <= |buf| && buf[m..] == Encode(todo)
        invariant ncluster == |clustlist| && cluststack == old(cluststack)
        invariant clustlist + todo == cl0 + all
        invariant volAdded + SumVolumes(todo) == SumVolumes(all)
        decreases |buf| - m
      {
        ReadRecord(buf, m, todo);
        var id := buf[m];
        var vol := buf[m + 1];
        var nn := buf[m + 2];
        ghost var cl, rec := clustlist, todo[0];
        MoveFirst(cl, todo);
        m := m + 3;
        assert Cluster(id, vol, buf[m..m + nn]) == rec;
        AddCluster(id, vol, buf[m..m + nn]);
        assert clustlist == cl + [rec];
        m := m + nn;
        todo := todo[1..];
        volAdded := volAdded + vol;
      }
      assert todo == [];
    }

    /**
     * The coordinator's gather: the message of every other rank, in rank
     * order (msgs[k] comes from rank k + 1), is unpacked in turn, so the
     * table becomes the coordinator's own records followed by each rank's.
     */
    method Gather(msgs: seq<seq<int>>, ghost tables: seq<seq<Cluster>>) returns (volAdded: int)
      requires ncluster == |clustlist|
      requires |tables| == |msgs| && forall k :: 0 <= k < |msgs| ==> Decode(msgs[k]) == Some(tables[k])
      modifies this
      ensures ncluster == |clustlist| && cluststack == old(cluststack)
      ensures clustlist == old(clustlist) + Concat(tables)
      ensures volAdded == SumVolumes(Concat(tables))
    {
      volAdded := 0;
      for k := 0 to |msgs|
        invariant ncluster == |clustlist| && cluststack == old(cluststack)
        invariant clustlist == old(clustlist) + Concat(tables[..k])
        invariant volAdded == SumVolumes(Concat(tables[..k]))
      {
        ghost var before := Concat(tables[..k]);
        var v := Unpack(msgs[k], tables[k]);
        ConcatPrefixStep(tables, k);
        assert clustlist == old(clustlist) + (before + tables[k]);
        volAdded := volAdded + v;
      }
      assert tables[..|msgs|] == tables;
    }

    /**
     * The id column of dump_clusters: a site whose cluster_ids value is g is
     * written with the global id of record g - 1 of the coordinator's merged
     * table.
     */
    method DumpIds(siteIds: seq<int>) returns (cids: seq<int>)
      requires ncluster == |clustlist|
      requires forall t :: 0 <= t < |siteIds| ==> 1 <= siteIds[t] <= ncluster
      ensures |cids| == |siteIds|
      ensures forall t :: 0 <= t < |siteIds| ==> cids[t] == clustlist[siteIds[t] - 1].globalId
    {
      cids := [];
      for t := 0 to |siteIds|
        invariant |cids| == t
        invariant forall u :: 0 <= u < t ==> cids[u] == clustlist[siteIds[u] - 1].globalId
      {
        var cid := siteIds[t] - 1;
        cid := clustlist[cid].globalId;
        cids := cids + [cid];
      }
    }

    /**
     * The coordinator's merge of the gathered table: every record with
     * nonzero volume that the outer scan meets starts a group, and a
     * depth-first search over neighbour ids (record index = id - idoffset)
     * folds each reached record into it, zeroing its volume and giving it the
     * group's global id; the first record receives the group's volume.
     * Whatever the links, the total volume is kept and every record carries
     * the original global id of the record rep names. When links are
     * symmetric and volumes positive, rep is a closed grouping whose
     * representative is the group's first record and holds its total volume,
     * and nclusterReduced counts the records left with nonzero volume.
     */
    method Merge(idoffset: int) returns (nclusterReduced: int, volsum: int, ghost rep: seq<int>)
      requires Valid() && WellIndexed(clustlist, idoffset)
      modifies this
      ensures Valid() && Tracks(old(clustlist), clustlist, rep)
      ensures SumVolumes(clustlist) == SumVolumes(old(clustlist))
      ensures SymmetricLinks(old(clustlist), idoffset) && PositiveVolumes(old(clustlist)) ==>
                && Settled(old(clustlist), clustlist, rep, idoffset, |clustlist|)
                && nclusterReduced == CountNonzero(clustlist)
                && volsum == SumVolumes(old(clustlist))
    {
      ghost var cl0 := clustlist;
      ghost var good := SymmetricLinks(cl0, idoffset) && PositiveVolumes(cl0);
      rep := seq(|cl0|, _ => -1);
      volsum := 0;
      nclusterReduced := 0;
      MergeStart(cl0, idoffset, good);

      // loop over all clusters
      for i := 0 to ncluster
        invariant Valid() && MergeInv(cl0, idoffset, good, i, clustlist, rep, nclusterReduced, volsum)
      {
        nclusterReduced, volsum, rep := MergeRecord(i, idoffset, cl0, rep, good, nclusterReduced, volsum);
      }
      MergeEnd(cl0, idoffset, good, clustlist, rep, nclusterReduced, volsum);
    }

    /**
     * One turn of the merge's outer loop (lines 343-372): a record whose
     * volume is still nonzero starts a new group, one already folded into
     * an earlier group is skipped.
     */
    method MergeRecord(i: nat, idoffset: int, ghost cl0: seq<Cluster>, ghost grp: seq<int>, ghost good: bool,
                       nred: int, volsum: int)
      returns (nred': int, volsum': int, ghost grp': seq<int>)
      requires Valid() && i < ncluster
      requires MergeInv(cl0, idoffset, good, i, clustlist, grp, nred, volsum)
      modifies this
      ensures Valid() && MergeInv(cl0, idoffset, good, i + 1, clustlist, grp', nred', volsum')
    {
      if clustlist[i].volume != 0 {
        var vol;
        vol, grp' := MergeGroup(i, idoffset, cl0, grp, good, nred, volsum);
        nred' := nred + 1;
        volsum' := volsum + vol;
      } else {
        // already visited: skipped
        MergeSkip(cl0, idoffset, good, i, clustlist, grp, nred, volsum);
        nred', volsum', grp' := nred, volsum, grp;
      }
    }

    /** One group of the merge, started at record i (lines 346-371). */
    method MergeGroup(i: nat, idoffset: int, ghost cl0: seq<Cluster>, ghost grp: seq<int>, ghost good: bool,
                      ghost nred: int, ghost volsum: int)
      returns (vol: int, ghost grp': seq<int>)
      requires Valid() && i < ncluster && clustlist[i].volume != 0
      requires MergeInv(cl0, idoffset, good, i, clustlist, grp, nred, volsum)
      modifies this
      ensures Valid() && GroupDone(cl0, idoffset, good, i, clustlist, grp', vol, old(clustlist))
      ensures MergeInv(cl0, idoffset, good, i + 1, clustlist, grp', nred + 1, volsum + vol)
    {
      ghost var clStart := clustlist;
      GroupStart(cl0, idoffset, i, good, clustlist, grp, nred, volsum);
      // push first cluster onto stack
      var id := clustlist[i].globalId;
      vol := 0;
      cluststack := cluststack + [i];
      vol := vol + clustlist[i].volume;
      clustlist := clustlist[i := clustlist[i].(volume := 0)];
      grp' := grp[i := i];

      while |cluststack| > 0
        invariant ncluster == |clustlist|
        invariant GroupInv(cl0, idoffset, i, id, good, clustlist, grp', cluststack, vol, clStart)
        decreases CountNonzero(clustlist), |cluststack|
      {
        vol, grp' := PopAndFold(id, idoffset, vol, i, cl0, grp', good, clStart);
      }
      GroupEnd(cl0, idoffset, i, id, good, clustlist, grp', vol, clStart);
      clustlist := clustlist[i := clustlist[i].(volume := vol)];
      MergeGroupStep(cl0, idoffset, good, i, clStart, grp, nred, volsum, clustlist, grp', vol);
    }

    /**
     * One turn of the group loop (lines 356-369): the top ii of the stack is
     * popped and its neighbour list scanned; each neighbour with nonzero
     * volume is pushed, its volume added to vol, its global id set to id and
     * its volume zeroed.
     */
    method PopAndFold(id: int, idoffset: int, vol: int, ghost i: nat, ghost cl0: seq<Cluster>,
                      ghost grp: seq<int>, ghost good: bool, ghost clStart: seq<Cluster>)
      returns (vol': int, ghost grp': seq<int>)
      requires ncluster == |clustlist| && |cluststack| > 0
      requires GroupInv(cl0, idoffset, i, id, good, clustlist, grp, cluststack, vol, clStart)
      modifies this
      ensures ncluster == |clustlist| && |cluststack| + 1 >= old(|cluststack|)
      ensures CountNonzero(clustlist) + |cluststack| + 1 == old(CountNonzero(clustlist) + |cluststack|)
      ensures GroupInv(cl0, idoffset, i, id, good, clustlist, grp', cluststack, vol', clStart)
    {
      PopToFold(cl0, idoffset, i, id, good, clustlist, grp, cluststack, vol, clStart);
      // first top, then pop
      var ii := cluststack[|cluststack| - 1];
      cluststack := cluststack[..|cluststack| - 1];
      ghost var cl1, stack1 := clustlist, cluststack;
      vol', grp' := ScanNeighbours(ii, id, idoffset, vol, i, cl0, grp, good, clStart);
      FoldToGroup(cl0, idoffset, i, id, good, ii, clustlist, grp', cluststack, vol', clStart, cl1, stack1);
    }

    /**
     * The scan of popped record ii's neighbour list (lines 360-369), from the
     * table and stack left by the pop.
     */
    method ScanNeighbours(ii: nat, id: int, idoffset: int, vol: int, ghost i: nat, ghost cl0: seq<Cluster>,
                          ghost grp: seq<int>, ghost good: bool, ghost clStart: seq<Cluster>)
      returns (vol': int, ghost grp': seq<int>)
      requires ncluster == |clustlist|
      requires FoldInv(cl0, idoffset, i, id, good, ii, 0, clustlist, grp, cluststack, vol, clStart, clustlist, cluststack)
      modifies this
      ensures ncluster == |clustlist|
      ensures FoldInv(cl0, idoffset, i, id, good, ii, |cl0[ii].neighlist|, clustlist, grp', cluststack, vol', clStart,
                      old(clustlist), old(cluststack))
    {
      ghost var cl1, stack1 := clustlist, cluststack;
      vol' := vol;
      grp' := grp;
      var neighs := clustlist[ii].neighlist;
      for j := 0 to |neighs|
        invariant ncluster == |clustlist| && neighs == cl0[ii].neighlist
        invariant FoldInv(cl0, idoffset, i, id, good, ii, j, clustlist, grp', cluststack, vol', clStart,
                          cl1, stack1)
      {
        vol', grp' := FoldOne(ii, j, neighs[j], id, idoffset, vol', i, cl0, grp', good, clStart, cl1, stack1);
      }
    }

    /** Neighbour j of popped record ii, with global id jid: pushed and folded into the group unless its volume is already 0. */
    method FoldOne(ii: nat, j: nat, jid: int, id: int, idoffset: int, vol: int, ghost i: nat, ghost cl0: seq<Cluster>,
                   ghost grp: seq<int>, ghost good: bool, ghost clStart: seq<Cluster>, ghost cl1: seq<Cluster>,
                   ghost stack1: seq<int>)
      returns (vol': int, ghost grp': seq<int>)
      requires ncluster == |clustlist|
      requires FoldInv(cl0, idoffset, i, id, good, ii, j, clustlist, grp, cluststack, vol, clStart, cl1, stack1)
      requires j < |cl0[ii].neighlist| && jid == cl0[ii].neighlist[j]
      modifies this
      ensures ncluster == |clustlist|
      ensures FoldInv(cl0, idoffset, i, id, good, ii, j + 1, clustlist, grp', cluststack, vol', clStart, cl1, stack1)
    {
      var jneigh := jid - idoffset;
      FoldNext(cl0, idoffset, i, id, good, ii, j, clustlist, grp, cluststack, vol, clStart, cl1, stack1, jneigh);
      vol', grp' := vol, grp;
      if clustlist[jneigh].volume != 0 {
        cluststack := cluststack + [jneigh];
        vol' := vol + clustlist[jneigh].volume;
        clustlist := clustlist[jneigh := clustlist[jneigh].(globalId := id, volume := 0)];
        grp' := grp[jneigh := i];
      }
    }

    /**
     * The first phase of generate_clusters: the local fill, the scan over the
     * ranks' cluster counts and the renumbering to global ids. earlierCounts
     * holds the ncluster of the ranks before this one. Afterwards record k
     * carries global id k + idoffset and, as volume, the number of owned
     * sites carrying that id.
     */
    method Renumber(lat: Lattice, earlierCounts: seq<int>) returns (volsum: int, idoffset: int)
      requires Valid() && lat.Valid() && lat.nlocal == nlocal && lat.nghost == nghost
      modifies this, clusterIds
      ensures Valid() && volsum == nlocal && SumVolumes(clustlist) == nlocal
      ensures idoffset == 1 + Sum(earlierCounts)
      ensures forall k :: 0 <= k < ncluster ==>
                clustlist[k] == Cluster(k + idoffset, CountOf(clusterIds[..nlocal], k + idoffset), []) && clustlist[k].volume >= 1
      ensures forall j :: 0 <= j < nlocal ==> idoffset <= clusterIds[j] < idoffset + ncluster
      ensures lat.SymmetricNeighbours() ==> LabelsFollowConnections(lat, clusterIds[..])
      ensures lat.SymmetricNeighbours() ==> ComponentLabels(lat, clusterIds[..])
    {
      ghost var seeds;
      volsum, seeds := LocalFill(lat);
      ghost var ids1, cl1 := clusterIds[..], clustlist;
      var me := |earlierCounts|;
      var counts := earlierCounts + [ncluster];
      idoffset := Scan(counts, me) - ncluster + 1;
      IdOffsetIsExclusivePrefix(counts, me);
      assert counts[..me] == earlierCounts;
      AssignGlobalIds(idoffset);
      forall k | 0 <= k < ncluster
        ensures clustlist[k].volume == CountOf(clusterIds[..nlocal], k + idoffset)
      {
        GlobalVolume(ids1, clusterIds[..], nlocal, idoffset, k);
      }
      SumVolumesSameVolumes(cl1, clustlist);
      FollowConnectionsShift(lat, ids1, clusterIds[..], idoffset - 1);
    }

    /**
     * The second phase: the ghost exchange and the boundary linking. ghostVals
     * is what the owners of the ghost sites hold after their renumbering,
     * global ids within 1..total. Afterwards record k lists, without
     * duplicates, exactly the ids found across ghost edges of its sites, all
     * within 1..total; ids, volumes and owned labels are unchanged.
     */
    method LinkBoundary(lat: Lattice, idoffset: int, ghostVals: seq<int>, ghost total: int)
      requires Valid() && lat.Valid() && lat.nlocal == nlocal && lat.nghost == nghost
      requires |ghostVals| == nghost
      requires forall t :: 0 <= t < |ghostVals| ==> 1 <= ghostVals[t] <= total
      requires forall j :: 0 <= j < nlocal ==> idoffset <= clusterIds[j] < idoffset + ncluster
      requires forall k :: 0 <= k < ncluster ==> clustlist[k].neighlist == []
      modifies this, clusterIds
      ensures Valid() && |clustlist| == |old(clustlist)|
      ensures forall k :: 0 <= k < ncluster ==> clustlist[k] == old(clustlist[k]).(neighlist := clustlist[k].neighlist)
      ensures clusterIds[..nlocal] == old(clusterIds[..nlocal]) && clusterIds[nlocal..] == ghostVals
      ensures forall k, g :: 0 <= k < ncluster ==>
                (g in clustlist[k].neighlist <==> SiteOfClusterLinks(lat, clusterIds[..], idoffset, k, g, nlocal))
      ensures forall k :: 0 <= k < ncluster ==> NoDuplicates(clustlist[k].neighlist)
      ensures NeighboursWithin(clustlist, total)
    {
      ExchangeGhosts(ghostVals);
      GhostsWithin(lat, clusterIds[..], ghostVals, total);
      LinkGhosts(lat, idoffset);
      forall x, t | 0 <= x < |clustlist| && 0 <= t < |clustlist[x].neighlist|
        ensures 1 <= clustlist[x].neighlist[t] <= total
      {
        LinksWithin(lat, clusterIds[..], idoffset, x, clustlist[x].neighlist[t], total);
      }
    }

    /**
     * generate_clusters up to the send, as every rank runs it. The results of
     * the collectives are computed from the other ranks' contributions,
     * passed in: earlierCounts holds the ncluster of the ranks before this
     * one (so this rank is me = |earlierCounts|), ghostVals what the owners
     * of the ghost sites hold after their relabelling (global ids within
     * 1..total), and otherSizes the me_size of the other ranks. Afterwards
     * record k carries global id k + idoffset with idoffset = 1 +
     * Sum(earlierCounts) and as volume the number of owned sites carrying
     * that id, its neighbour list holds the ids found across its ghost edges,
     * owned sites carry their cluster's global id (shared by connected
     * neighbours on a symmetric lattice), and a rank other than the
     * coordinator holds its table's encoding in the first m ints of ibufclust.
     */
    method GenerateLocal(lat: Lattice, earlierCounts: seq<int>, ghostVals: seq<int>, otherSizes: seq<int>, ghost total: int)
      returns (volsum: int, idoffset: int, ibufclust: array<int>, m: int)
      requires Valid() && lat.Valid() && lat.nlocal == nlocal && lat.nghost == nghost
      requires |ghostVals| == nghost
      requires forall t :: 0 <= t < |ghostVals| ==> 1 <= ghostVals[t] <= total
      modifies this, clusterIds
      ensures Valid() && fresh(ibufclust) && volsum == nlocal
      ensures idoffset == 1 + Sum(earlierCounts)
      ensures forall k :: 0 <= k < ncluster ==> clustlist[k].globalId == k + idoffset && clustlist[k].volume >= 1
      ensures forall k :: 0 <= k < ncluster ==> clustlist[k].volume == CountOf(clusterIds[..nlocal], k + idoffset)
      ensures SumVolumes(clustlist) == nlocal
      ensures forall j :: 0 <= j < nlocal ==> idoffset <= clusterIds[j] < idoffset + ncluster
      ensures lat.SymmetricNeighbours() ==> LabelsFollowConnections(lat, clusterIds[..])
      ensures lat.SymmetricNeighbours() ==> ComponentLabels(lat, clusterIds[..])
      ensures clusterIds[nlocal..] == ghostVals
      ensures forall k, g :: 0 <= k < ncluster ==>
                (g in clustlist[k].neighlist <==> SiteOfClusterLinks(lat, clusterIds[..], idoffset, k, g, nlocal))
      ensures forall k :: 0 <= k < ncluster ==> NoDuplicates(clustlist[k].neighlist)
      ensures NeighboursWithin(clustlist, total)
      ensures 0 <= m <= ibufclust.Length
      ensures |earlierCounts| != 0 ==> ibufclust[..m] == Encode(clustlist)
      ensures |earlierCounts| == 0 ==> m == 0
    {
      volsum, idoffset := Renumber(lat, earlierCounts);
      ghost var ids1, cl1 := clusterIds[..], clustlist;
      LinkBoundary(lat, idoffset, ghostVals, total);
      assert clusterIds[..nlocal] == ids1[..nlocal];
      SumVolumesSameVolumes(cl1, clustlist);
      FollowConnectionsShift(lat, ids1, clusterIds[..], 0);
      var me := |earlierCounts|;
      var meSize := CountPackedSize(me);
      var maxbuf := Max(otherSizes + [meSize]);
      assert (otherSizes + [meSize])[|otherSizes|] == meSize;
      var mismatch;
      ibufclust, m, mismatch := Pack(me, meSize, maxbuf);
    }

    /**
     * The coordinator's part of generate_clusters after its own packing:
     * the other ranks' messages, in rank order, are unpacked behind its own
     * table, and the merge runs over the whole table with this rank's
     * idoffset, which on rank 0 is 1 whatever the counts. rep is the
     * grouping the merge computed over the gathered table.
     */
    method Coordinate(msgs: seq<seq<int>>, ghost tables: seq<seq<Cluster>>, idoffset: int, ghost counts: seq<int>)
      returns (nclusterReduced: int, ghost rep: seq<int>)
      requires Valid()
      requires |counts| > 0 && idoffset == IdOffset(counts, 0)
      requires |tables| == |msgs| && forall k :: 0 <= k < |msgs| ==> Decode(msgs[k]) == Some(tables[k])
      requires WellIndexed(clustlist + Concat(tables), 1)
      modifies this
      ensures Valid()
      ensures Tracks(old(clustlist) + Concat(tables), clustlist, rep)
      ensures SumVolumes(clustlist) == SumVolumes(old(clustlist)) + SumVolumes(Concat(tables))
      ensures SymmetricLinks(old(clustlist) + Concat(tables), 1) && PositiveVolumes(old(clustlist) + Concat(tables)) ==>
                && Settled(old(clustlist) + Concat(tables), clustlist, rep, 1, |clustlist|)
                && nclusterReduced == CountNonzero(clustlist)
    {
      var volAdded := Gather(msgs, tables);
      SumVolumesConcat(old(clustlist), Concat(tables));
      CoordinatorOffset(counts);
      var volsum;
      nclusterReduced, volsum, rep := Merge(idoffset);
    }
  }

  /** One record of the pack loop: id, volume, nneigh, then the neighbour ids, written from cursor m on. */
  method PackRecord(buf: array<int>, m: nat, c: Cluster) returns (m': nat)
    requires m + RecordSize(c) <= buf.Length
    modifies buf
    ensures m' == m + RecordSize(c)
    ensures buf[..m'] == old(buf[..m]) + EncodeRecord(c)
  {
    buf[m] := c.globalId;
    buf[m + 1] := c.volume;
    buf[m + 2] := |c.neighlist|;
    m' := m + 3;
    for j := 0 to |c.neighlist|
      invariant m' == m + 3 + j
      invariant buf[..m'] == old(buf[..m]) + [c.globalId, c.volume, |c.neighlist|] + c.neighlist[..j]
    {
      assert c.neighlist[..j + 1] == c.neighlist[..j] + [c.neighlist[j]];
      buf[m'] := c.neighlist[j];
      m' := m' + 1;
    }
    assert c.neighlist[..|c.neighlist|] == c.neighlist;
  }

  /**
   * The labels after the fill has finished some clusters: ghost slots hold
   * -1, owned slots a label in 0..|cl| (0 = not yet visited), and record k
   * describes label k+1: global id k+1, no neighbours, and as volume the
   * positive number of sites carrying that label.
   */
  ghost predicate FillState(ids: seq<int>, cl: seq<Cluster>, nlocal: nat)
  {
    && nlocal <= |ids|
    && (forall j :: nlocal <= j < |ids| ==> ids[j] == -1)
    && (forall j :: 0 <= j < nlocal ==> 0 <= ids[j] <= |cl|)
    && (forall k :: 0 <= k < |cl| ==> cl[k] == Cluster(k + 1, CountOf(ids, k + 1), []) && cl[k].volume >= 1)
  }

  /** The local fill's loop state before site i: the fill invariant, sites before i visited, and volsum counting the visited owned sites. */
  ghost predicate FillProgress(ids: seq<int>, cl: seq<Cluster>, nlocal: nat, i: nat, volsum: int)
  {
    && FillState(ids, cl, nlocal) && i <= nlocal
    && (forall j :: 0 <= j < i ==> ids[j] != 0)
    && volsum + CountOf(ids, 0) == nlocal
    && SumVolumes(cl) == volsum
  }

  /** Filling the cluster seeded at unvisited site i advances the loop state past i, adding the cluster's volume to volsum. */
  lemma FillProgressStep(ids: seq<int>, ids': seq<int>, cl: seq<Cluster>, cl': seq<Cluster>, nlocal: nat, i: nat, volsum: int, vol: int)
    requires FillProgress(ids, cl, nlocal, i, volsum) && i < nlocal
    requires FillState(ids', cl', nlocal) && |ids'| == |ids| && ids'[i] != 0
    requires forall j :: 0 <= j < |ids| && ids[j] != 0 ==> ids'[j] == ids[j]
    requires vol + CountOf(ids', 0) == CountOf(ids, 0)
    requires cl' == cl + [Cluster(|cl| + 1, vol, [])]
    ensures FillProgress(ids', cl', nlocal, i + 1, volsum + vol)
  {
    assert cl'[..|cl'| - 1] == cl;
  }

  /** Right after the reset no site is labelled yet and all owned sites count as unvisited. */
  lemma FillStateInitial(ids: seq<int>, nlocal: nat)
    requires nlocal <= |ids|
    requires forall j :: 0 <= j < nlocal ==> ids[j] == 0
    requires forall j :: nlocal <= j < |ids| ==> ids[j] == -1
    ensures FillState(ids, [], nlocal)
    ensures CountOf(ids, 0) == nlocal
  {
    assert ids == ids[..nlocal] + ids[nlocal..];
    CountOfUniform(ids[..nlocal], 0);
    CountOfAbsent(ids[nlocal..], 0);
    CountOfConcat(ids[..nlocal], ids[nlocal..], 0);
  }

  /** Once every owned site is visited, all owned labels are in 1..|cl| and no slot is unvisited. */
  lemma FillStateFinal(ids: seq<int>, cl: seq<Cluster>, nlocal: nat)
    requires FillState(ids, cl, nlocal)
    requires forall j :: 0 <= j < nlocal ==> ids[j] != 0
    ensures forall j :: 0 <= j < nlocal ==> 1 <= ids[j] <= |cl|
    ensures CountOf(ids, 0) == 0
  {
    CountOfAbsent(ids, 0);
  }

  /**
   * The labels while the last record's cluster is being searched: the sites
   * carrying its label are those already popped (vol of them) plus those
   * still on the stack, and the stack holds owned sites only.
   */
  ghost predicate GrowState(ids: seq<int>, cl: seq<Cluster>, stack: seq<int>, vol: int, nlocal: nat)
  {
    && |cl| >= 1 && nlocal <= |ids|
    && (forall j :: nlocal <= j < |ids| ==> ids[j] == -1)
    && (forall j :: 0 <= j < nlocal ==> 0 <= ids[j] <= |cl|)
    && (forall t :: 0 <= t < |stack| ==> 0 <= stack[t] < nlocal)
    && (forall k :: 0 <= k < |cl| - 1 ==> cl[k] == Cluster(k + 1, CountOf(ids, k + 1), []) && cl[k].volume >= 1)
    && cl[|cl| - 1] == Cluster(|cl|, 0, [])
    && CountOf(ids, |cl|) == vol + |stack|
    && vol + |stack| >= 1
  }

  /** Seeding a new cluster at unvisited owned site i starts a search state with i on the stack. */
  lemma SeedGrowState(ids: seq<int>, cl: seq<Cluster>, i: nat, nlocal: nat)
    requires FillState(ids, cl, nlocal) && i < nlocal && ids[i] == 0
    ensures GrowState(ids[i := |cl| + 1], cl + [Cluster(|cl| + 1, 0, [])], [i], 0, nlocal)
    ensures CountOf(ids[i := |cl| + 1], 0) == CountOf(ids, 0) - 1
  {
    var id := |cl| + 1;
    var ids' := ids[i := id];
    var cl' := cl + [Cluster(id, 0, [])];
    CountOfAbsent(ids, id);
    CountOfUpdate(ids, i, id, id);
    CountOfUpdate(ids, i, id, 0);
    forall k | 0 <= k < |cl'| - 1
      ensures cl'[k] == Cluster(k + 1, CountOf(ids', k + 1), []) && cl'[k].volume >= 1
    {
      CountOfUpdate(ids, i, id, k + 1);
    }
  }

  /**
   * One step of the search: the top of the stack is popped and counted, and
   * push_connected_neighbors, as its contract describes it, labels and
   * pushes only unvisited sites; the search state is kept.
   */
  lemma PushKeepsGrowState(ids: seq<int>, ids': seq<int>, cl: seq<Cluster>, full: seq<int>, stack': seq<int>,
                           vol: int, nlocal: nat)
    requires GrowState(ids, cl, full, vol - 1, nlocal) && |full| >= 1 && |ids'| == |ids|
    requires var stack := full[..|full| - 1];
      && |stack| <= |stack'| && stack'[..|stack|] == stack
      && (forall t :: |stack| <= t < |stack'| ==> 0 <= stack'[t] < |ids| && ids[stack'[t]] == 0)
      && CountOf(ids', |cl|) == CountOf(ids, |cl|) + (|stack'| - |stack|)
    requires forall p :: 0 <= p < |ids| ==> ids'[p] == ids[p] || (ids[p] == 0 && ids'[p] == |cl|)
    requires forall k :: k != 0 && k != |cl| ==> CountOf(ids', k) == CountOf(ids, k)
    ensures GrowState(ids', cl, stack', vol, nlocal)
  {
    var stack := full[..|full| - 1];
    forall t | 0 <= t < |stack'|
      ensures 0 <= stack'[t] < nlocal
    {
      if t < |stack| {
        assert stack'[t] == stack[t] == full[t];
      }
    }
    forall k | 0 <= k < |cl| - 1
      ensures cl[k] == Cluster(k + 1, CountOf(ids', k + 1), [])
    {
      assert CountOf(ids', k + 1) == CountOf(ids, k + 1);
    }
  }

  /** When the stack is empty the search is over and the record gets the popped count as its volume. */
  lemma GrowStateDone(ids: seq<int>, cl: seq<Cluster>, vol: int, nlocal: nat)
    requires GrowState(ids, cl, [], vol, nlocal)
    ensures FillState(ids, cl[|cl| - 1 := cl[|cl| - 1].(volume := vol)], nlocal)
  {
  }

  /** Every connected owned neighbour of owned site j carries j's label. */
  ghost predicate Closed(lat: Lattice, ids: seq<int>, j: int)
    requires lat.Valid() && |ids| == lat.nlocal + lat.nghost && 0 <= j < lat.nlocal
  {
    forall t :: 0 <= t < |lat.neighbor[j]| && lat.neighbor[j][t] < lat.nlocal && Connected(lat, j, lat.neighbor[j][t]) ==>
      ids[lat.neighbor[j][t]] == ids[j]
  }

  /** The fill's result follows connectivity: any two connected owned neighbours share a label. */
  ghost predicate LabelsFollowConnections(lat: Lattice, ids: seq<int>)
    requires lat.Valid() && |ids| == lat.nlocal + lat.nghost
  {
    forall j :: 0 <= j < lat.nlocal ==> Closed(lat, ids, j)
  }

  /**
   * The search's frontier invariant, on a lattice with symmetric adjacency:
   * every labelled owned site that is no longer on the stack has had all its
   * connected owned neighbours labelled with its own label.
   */
  ghost predicate LabelsClosed(lat: Lattice, ids: seq<int>, stack: seq<int>)
  {
    && lat.Valid() && |ids| == lat.nlocal + lat.nghost
    && (lat.SymmetricNeighbours() ==>
          forall j :: 0 <= j < lat.nlocal && ids[j] != 0 && j !in stack ==> Closed(lat, ids, j))
  }

  /** LabelsClosed while cluster c is searched: besides, every site on the stack carries c. */
  ghost predicate GrowClosed(lat: Lattice, ids: seq<int>, c: int, stack: seq<int>)
  {
    && LabelsClosed(lat, ids, stack)
    && forall t :: 0 <= t < |stack| ==> 0 <= stack[t] < |ids| && ids[stack[t]] == c
  }

  /** Labelling the unvisited seed i with c and pushing it keeps the frontier invariant. */
  lemma SeedGrowClosed(lat: Lattice, ids: seq<int>, i: nat, c: int)
    requires LabelsClosed(lat, ids, []) && i < lat.nlocal && ids[i] == 0
    ensures GrowClosed(lat, ids[i := c], c, [i])
  {
    var ids' := ids[i := c];
    if lat.SymmetricNeighbours() {
      forall j | 0 <= j < lat.nlocal && ids'[j] != 0 && j !in [i]
        ensures Closed(lat, ids', j)
      {
        assert Closed(lat, ids, j);
      }
    }
  }

  /**
   * One step of the search keeps the frontier invariant: the popped site ii
   * has now all its connected unvisited neighbours labelled c, and a
   * connected neighbour with another nonzero label cannot exist, since that
   * neighbour would be closed and so, by symmetry, would have passed its
   * label to ii. Sites off the stack that were closed stay closed, because
   * only unvisited sites change and every changed site is pushed.
   */
  lemma PushKeepsClosed(lat: Lattice, ids: seq<int>, ids': seq<int>, c: int, full: seq<int>, stack': seq<int>)
    requires GrowClosed(lat, ids, c, full) && c != 0 && |full| >= 1 && |ids'| == |ids|
    requires 0 <= full[|full| - 1] < lat.nlocal
    requires var stack := full[..|full| - 1];
      && |stack| <= |stack'| && stack'[..|stack|] == stack
      && forall t :: |stack| <= t < |stack'| ==> 0 <= stack'[t] < |ids| && ids'[stack'[t]] == c
    requires forall p :: 0 <= p < |ids| ==> ids'[p] == ids[p] || (ids[p] == 0 && ids'[p] == c)
    requires forall p :: 0 <= p < |ids| && ids[p] == 0 && ids'[p] != 0 ==> p in stack'
    requires var ii := full[|full| - 1];
      forall t :: 0 <= t < |lat.neighbor[ii]| && Connected(lat, ii, lat.neighbor[ii][t]) && ids[lat.neighbor[ii][t]] == 0 ==>
        ids'[lat.neighbor[ii][t]] == c
    ensures GrowClosed(lat, ids', c, stack')
  {
    var ii := full[|full| - 1];
    var stack := full[..|full| - 1];
    assert full == stack + [ii];
    forall t | 0 <= t < |stack'|
      ensures 0 <= stack'[t] < |ids'| && ids'[stack'[t]] == c
    {
      if t < |stack| {
        assert stack'[t] == full[t];
      }
    }
    if lat.SymmetricNeighbours() {
      forall j | 0 <= j < lat.nlocal && ids'[j] != 0 && j !in stack'
        ensures Closed(lat, ids', j)
      {
        if j == ii {
          forall t | 0 <= t < |lat.neighbor[j]| && lat.neighbor[j][t] < lat.nlocal && Connected(lat, j, lat.neighbor[j][t])
            ensures ids'[lat.neighbor[j][t]] == ids'[j]
          {
            var n := lat.neighbor[j][t];
            if ids[n] != 0 && n !in full {
              assert Closed(lat, ids, n);
              assert j in lat.neighbor[n];
              var u :| 0 <= u < |lat.neighbor[n]| && lat.neighbor[n][u] == j;
              assert ids[j] == ids[n];
            }
          }
        } else {
          assert ids[j] != 0;
          assert Closed(lat, ids, j);
        }
      }
    }
  }

  /** Once no owned site is unvisited, the frontier invariant says that labels follow connections. */
  lemma ClosedWhenAllVisited(lat: Lattice, ids: seq<int>)
    requires LabelsClosed(lat, ids, [])
    requires forall j :: 0 <= j < lat.nlocal ==> ids[j] != 0
    ensures lat.SymmetricNeighbours() ==> LabelsFollowConnections(lat, ids)
  {
  }

  /**
   * The seeds of the clusters labelled so far: seeds[k] is an owned site
   * carrying label k + 1, and every labelled owned site is reachable from the
   * seed of its label.
   */
  ghost predicate SeedsReach(lat: Lattice, ids: seq<int>, seeds: seq<int>)
  {
    && lat.Valid() && |ids| == lat.nlocal + lat.nghost
    && (forall k :: 0 <= k < |seeds| ==> 0 <= seeds[k] < lat.nlocal)
    && (forall k {:trigger ids[seeds[k]]} :: 0 <= k < |seeds| ==> ids[seeds[k]] == k + 1)
    && (forall j :: 0 <= j < lat.nlocal ==> ReachedAt(lat, ids, seeds, j))
  }

  /** Site j, when labelled, is reachable from the seed of its label. */
  ghost predicate ReachedAt(lat: Lattice, ids: seq<int>, seeds: seq<int>, j: int)
  {
    0 <= j < |ids| && (ids[j] != 0 ==> 1 <= ids[j] <= |seeds| && Reachable(lat, seeds[ids[j] - 1], j))
  }

  /** Labelling the unvisited site i with the next label makes it the seed of that label. */
  lemma SeedReach(lat: Lattice, ids: seq<int>, seeds: seq<int>, i: nat)
    requires SeedsReach(lat, ids, seeds) && i < lat.nlocal && ids[i] == 0
    ensures SeedsReach(lat, ids[i := |seeds| + 1], seeds + [i])
  {
    var ids', seeds' := ids[i := |seeds| + 1], seeds + [i];
    ReachSelf(lat, i);
    forall k | 0 <= k < |seeds'|
      ensures 0 <= seeds'[k] < lat.nlocal && ids'[seeds'[k]] == k + 1
    {
      if k < |seeds| {
        assert seeds'[k] == seeds[k] && ids[seeds[k]] == k + 1;
      }
    }
    forall j | 0 <= j < lat.nlocal
      ensures ReachedAt(lat, ids', seeds', j)
    {
      if j != i {
        assert ReachedAt(lat, ids, seeds, j);
        if ids[j] != 0 {
          assert seeds'[ids[j] - 1] == seeds[ids[j] - 1];
        }
      }
    }
  }

  /**
   * The sites the pusher labels in one step are reachable from root when the
   * popped site ii = full[|full| - 1] is: each of them was pushed, the sites
   * still on the stack below ii were labelled before, so each was pushed in
   * this step, as a connected neighbour of ii.
   */
  lemma PushedReached(lat: Lattice, ids: seq<int>, ids': seq<int>, root: int, full: seq<int>, stack': seq<int>)
    requires lat.Valid() && |full| >= 1 && 0 <= full[|full| - 1] < lat.nlocal && |ids'| == |ids|
    requires Reachable(lat, root, full[|full| - 1])
    requires forall t :: 0 <= t < |full| - 1 ==> 0 <= full[t] < |ids| && ids[full[t]] != 0
    requires var stack := full[..|full| - 1];
      && |stack| <= |stack'| && stack'[..|stack|] == stack
      && forall t :: |stack| <= t < |stack'| ==>
           0 <= stack'[t] < lat.nlocal && ConnectedNeighbor(lat, full[|full| - 1], stack'[t])
    requires forall p :: 0 <= p < |ids| && ids[p] == 0 && ids'[p] != 0 ==> p in stack'
    ensures forall p :: 0 <= p < |ids| && ids[p] == 0 && ids'[p] != 0 ==> Reachable(lat, root, p)
  {
    var ii := full[|full| - 1];
    var stack := full[..|full| - 1];
    forall p | 0 <= p < |ids| && ids[p] == 0 && ids'[p] != 0
      ensures Reachable(lat, root, p)
    {
      var suffix := stack'[|stack|..];
      assert stack' == stack + suffix;
      assert p !in stack by {
        forall t | 0 <= t < |stack|
          ensures stack[t] != p
        {
          assert stack[t] == full[t];
        }
      }
      var u :| 0 <= u < |suffix| && suffix[u] == p;
      assert stack'[|stack| + u] == p;
      ReachStep(lat, root, ii, p);
    }
  }

  /**
   * One step of the search keeps every labelled site reachable from its
   * seed: the sites newly labelled with the current label c = |seeds| are
   * reachable from the seed of c, and no other label changes.
   */
  lemma PushReach(lat: Lattice, ids: seq<int>, ids': seq<int>, seeds: seq<int>)
    requires SeedsReach(lat, ids, seeds) && |seeds| >= 1 && |ids'| == |ids|
    requires forall p :: 0 <= p < |ids| ==> ids'[p] == ids[p] || (ids[p] == 0 && ids'[p] == |seeds|)
    requires forall p :: 0 <= p < |ids| && ids[p] == 0 && ids'[p] != 0 ==> Reachable(lat, seeds[|seeds| - 1], p)
    ensures SeedsReach(lat, ids', seeds)
  {
    forall k | 0 <= k < |seeds|
      ensures ids'[seeds[k]] == k + 1
    {
      assert ids[seeds[k]] == k + 1;
    }
    forall j | 0 <= j < lat.nlocal
      ensures ReachedAt(lat, ids', seeds, j)
    {
      if ids'[j] == ids[j] {
        assert ReachedAt(lat, ids, seeds, j);
      }
    }
  }

  /** One step of the search, as SearchStep takes it, keeps every labelled site reachable from its seed. */
  lemma SearchStepReach(lat: Lattice, ids: seq<int>, ids': seq<int>, seeds: seq<int>, full: seq<int>, stack': seq<int>)
    requires SeedsReach(lat, ids, seeds) && |seeds| >= 1 && |ids'| == |ids| && |full| >= 1
    requires forall t :: 0 <= t < |full| ==> 0 <= full[t] < lat.nlocal && ids[full[t]] == |seeds|
    requires var stack := full[..|full| - 1];
      && |stack| <= |stack'| && stack'[..|stack|] == stack
      && forall t :: |stack| <= t < |stack'| ==>
           0 <= stack'[t] < lat.nlocal && ConnectedNeighbor(lat, full[|full| - 1], stack'[t])
    requires forall p :: 0 <= p < |ids| ==> ids'[p] == ids[p] || (ids[p] == 0 && ids'[p] == |seeds|)
    requires forall p :: 0 <= p < |ids| && ids[p] == 0 && ids'[p] != 0 ==> p in stack'
    ensures SeedsReach(lat, ids', seeds)
  {
    var ii := full[|full| - 1];
    assert ReachedAt(lat, ids, seeds, ii);
    PushedReached(lat, ids, ids', seeds[|seeds| - 1], full, stack');
    PushReach(lat, ids, ids', seeds);
  }

  /** Along a walk every site carries the label of its start, when labels follow connections. */
  lemma {:induction false} FollowAlongWalk(lat: Lattice, ids: seq<int>, p: seq<int>)
    requires lat.Valid() && |ids| == lat.nlocal + lat.nghost
    requires LabelsFollowConnections(lat, ids) && Walk(lat, p)
    ensures ids[p[|p| - 1]] == ids[p[0]]
  {
    var n := |p|;
    if n > 1 {
      var q := p[..n - 1];
      assert Walk(lat, q) by {
        forall t | 0 <= t < |q| - 1
          ensures Step(lat, q, t)
        {
          assert Step(lat, p, t);
          assert q[t] == p[t] && q[t + 1] == p[t + 1];
        }
      }
      FollowAlongWalk(lat, ids, q);
      assert Step(lat, p, n - 2);
      var t :| 0 <= t < |lat.neighbor[p[n - 2]]| && lat.neighbor[p[n - 2]][t] == p[n - 1] && Connected(lat, p[n - 2], p[n - 1]);
      assert Closed(lat, ids, p[n - 2]);
    }
  }

  /**
   * On a lattice with symmetric adjacency, a labelling that follows
   * connections and whose every label is reachable from its seed puts two
   * owned sites under one label exactly when one reaches the other.
   */
  lemma LabelsAreComponents(lat: Lattice, ids: seq<int>, seeds: seq<int>)
    requires SeedsReach(lat, ids, seeds) && lat.SymmetricNeighbours()
    requires LabelsFollowConnections(lat, ids)
    requires forall j :: 0 <= j < lat.nlocal ==> ids[j] != 0
    ensures ComponentLabels(lat, ids)
  {
    forall a, b | 0 <= a < lat.nlocal && 0 <= b < lat.nlocal
      ensures ids[a] == ids[b] <==> Reachable(lat, a, b)
    {
      assert ReachedAt(lat, ids, seeds, a) && ReachedAt(lat, ids, seeds, b);
      if ids[a] == ids[b] {
        var s := seeds[ids[a] - 1];
        ReachBack(lat, s, a);
        ReachTrans(lat, a, s, b);
      }
      if Reachable(lat, a, b) {
        var p :| Walk(lat, p) && p[0] == a && p[|p| - 1] == b;
        FollowAlongWalk(lat, ids, p);
      }
    }
  }

  /**
   * Shifting every owned label by the same amount keeps labels following
   * connections and keeps them the connected components; ghost slots do not
   * matter.
   */
  lemma FollowConnectionsShift(lat: Lattice, ids: seq<int>, ids': seq<int>, d: int)
    requires lat.Valid() && |ids| == |ids'| == lat.nlocal + lat.nghost
    requires forall j :: 0 <= j < lat.nlocal ==> ids'[j] == ids[j] + d
    ensures LabelsFollowConnections(lat, ids) ==> LabelsFollowConnections(lat, ids')
    ensures ComponentLabels(lat, ids) ==> ComponentLabels(lat, ids')
  {
    if LabelsFollowConnections(lat, ids) {
      forall j | 0 <= j < lat.nlocal
        ensures Closed(lat, ids', j)
      {
        assert Closed(lat, ids, j);
      }
    }
    if ComponentLabels(lat, ids) {
      forall a, b | 0 <= a < lat.nlocal && 0 <= b < lat.nlocal
        ensures ids'[a] == ids'[b] <==> Reachable(lat, a, b)
      {
        assert ids[a] == ids[b] <==> Reachable(lat, a, b);
      }
    }
  }

  /** Two owned sites carry the same label exactly when one reaches the other: the labels are the connected components. */
  ghost predicate ComponentLabels(lat: Lattice, ids: seq<int>)
  {
    && lat.Valid() && |ids| == lat.nlocal + lat.nghost
    && forall a, b :: 0 <= a < lat.nlocal && 0 <= b < lat.nlocal ==> (ids[a] == ids[b] <==> Reachable(lat, a, b))
  }

  /**
   * The end of the local fill: with every owned site visited, the labels are
   * within 1..|cl|, every site is reachable from the seed of its label, and
   * on a symmetric lattice the labels follow connections and are the
   * connected components.
   */
  lemma FillDone(lat: Lattice, ids: seq<int>, cl: seq<Cluster>, seeds: seq<int>)
    requires FillState(ids, cl, lat.nlocal) && LabelsClosed(lat, ids, []) && SeedsReach(lat, ids, seeds)
    requires forall j :: 0 <= j < lat.nlocal ==> ids[j] != 0
    ensures forall j :: 0 <= j < lat.nlocal ==> 1 <= ids[j] <= |cl|
    ensures CountOf(ids, 0) == 0
    ensures forall j :: 0 <= j < lat.nlocal ==> 1 <= ids[j] <= |seeds| && Reachable(lat, seeds[ids[j] - 1], j)
    ensures lat.SymmetricNeighbours() ==> LabelsFollowConnections(lat, ids) && ComponentLabels(lat, ids)
  {
    FillStateFinal(ids, cl, lat.nlocal);
    ClosedWhenAllVisited(lat, ids);
    forall j | 0 <= j < lat.nlocal
      ensures 1 <= ids[j] <= |seeds| && Reachable(lat, seeds[ids[j] - 1], j)
    {
      assert ReachedAt(lat, ids, seeds, j);
    }
    if lat.SymmetricNeighbours() {
      LabelsAreComponents(lat, ids, seeds);
    }
  }

  /** After the ghost exchange every ghost slot holds a global id within 1..total. */
  lemma GhostsWithin(lat: Lattice, ids: seq<int>, ghostVals: seq<int>, total: int)
    requires lat.nlocal <= |ids| && ids[lat.nlocal..] == ghostVals
    requires forall t :: 0 <= t < |ghostVals| ==> 1 <= ghostVals[t] <= total
    ensures forall j :: lat.nlocal <= j < |ids| ==> 1 <= ids[j] <= total
  {
    forall j | lat.nlocal <= j < |ids|
      ensures 1 <= ids[j] <= total
    {
      assert ids[j] == ghostVals[j - lat.nlocal];
    }
  }

  /** The renumbered owned sites carry id k + idoffset exactly as often as they carried local label k + 1 (ghost slots held -1). */
  lemma GlobalVolume(ids: seq<int>, ids': seq<int>, nlocal: nat, idoffset: int, k: int)
    requires nlocal <= |ids| && nlocal <= |ids'| && k >= 0
    requires forall j :: nlocal <= j < |ids| ==> ids[j] == -1
    requires forall j :: 0 <= j < nlocal ==> ids'[j] == ids[j] - 1 + idoffset
    ensures CountOf(ids'[..nlocal], k + idoffset) == CountOf(ids, k + 1)
  {
    assert ids == ids[..nlocal] + ids[nlocal..];
    CountOfConcat(ids[..nlocal], ids[nlocal..], k + 1);
    CountOfAbsent(ids[nlocal..], k + 1);
    CountOfShift(ids[..nlocal], ids'[..nlocal], idoffset - 1, k + 1);
  }

  /** An id linked across a ghost edge is a ghost slot's value, so it lies in 1..total when every ghost slot does. */
  lemma LinksWithin(lat: Lattice, ids: seq<int>, idoffset: int, k: int, g: int, total: int)
    requires lat.Valid() && |ids| == lat.nlocal + lat.nghost
    requires forall j :: lat.nlocal <= j < |ids| ==> 1 <= ids[j] <= total
    requires SiteOfClusterLinks(lat, ids, idoffset, k, g, lat.nlocal)
    ensures 1 <= g <= total
  {
    var s :| 0 <= s < lat.nlocal && ids[s] - idoffset == k && g in LinkedGhostIds(lat, ids, s, |lat.neighbor[s]|);
    var t :| 0 <= t < |lat.neighbor[s]| && GhostEdge(lat, ids, s, lat.neighbor[s][t]) && g == ids[lat.neighbor[s][t]];
  }

  /** Some owned site among the first n carries id k + idoffset and links to g across a ghost edge. */
  ghost predicate SiteOfClusterLinks(lat: Lattice, ids: seq<int>, idoffset: int, k: int, g: int, n: nat)
    requires lat.Valid() && |ids| == lat.nlocal + lat.nghost && n <= lat.nlocal
  {
    exists s :: 0 <= s < n && ids[s] - idoffset == k && g in LinkedGhostIds(lat, ids, s, |lat.neighbor[s]|)
  }

  lemma SiteOfClusterLinksStep(lat: Lattice, ids: seq<int>, idoffset: int, k: int, g: int, n: nat)
    requires lat.Valid() && |ids| == lat.nlocal + lat.nghost && n < lat.nlocal
    ensures SiteOfClusterLinks(lat, ids, idoffset, k, g, n + 1) <==>
            SiteOfClusterLinks(lat, ids, idoffset, k, g, n) ||
            (ids[n] - idoffset == k && g in LinkedGhostIds(lat, ids, n, |lat.neighbor[n]|))
  {
    if SiteOfClusterLinks(lat, ids, idoffset, k, g, n + 1) {
      var s :| 0 <= s < n + 1 && ids[s] - idoffset == k && g in LinkedGhostIds(lat, ids, s, |lat.neighbor[s]|);
      if s < n {
        assert SiteOfClusterLinks(lat, ids, idoffset, k, g, n);
      }
    }
  }
}
