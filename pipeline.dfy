/**
 * How the per-rank steps of generate_clusters fit together across ranks.
 * Element r of counts is rank r's ncluster after the local fill, and element
 * r of tables is rank r's cluster table after global ids were assigned; the
 * coordinator (rank 0) gathers the tables of ranks 1.. behind its own, in
 * rank order (src/diag_cluster.cpp:245-252 and 302-321), and runs the merge
 * with its own id offset, which is 1.
 */
module Pipeline {
  import opened Collectives
  import opened ClusterRecords
  import opened MergeSpec

  /** Every rank's table after the renumbering: counts[r] records, record k carrying global id k + IdOffset(counts, r). */
  predicate Renumbered(counts: seq<int>, tables: seq<seq<Cluster>>)
  {
    && |tables| == |counts|
    && forall r :: 0 <= r < |tables| ==>
         && |tables[r]| == counts[r]
         && forall k :: 0 <= k < |tables[r]| ==> tables[r][k].globalId == k + IdOffset(counts, r)
  }

  /** The coordinator's table after the gather is its own table followed by the others, in rank order. */
  lemma {:induction false} CoordinatorFirst(tables: seq<seq<Cluster>>)
    requires |tables| > 0
    ensures Concat(tables) == tables[0] + Concat(tables[1..])
  {
    if |tables| == 1 {
      assert tables[..0] == [] && tables[1..] == [];
    } else {
      var n := |tables|;
      CoordinatorFirst(tables[..n - 1]);
      assert tables[..n - 1][1..] == tables[1..][..n - 2];
      assert tables[..n - 1][0] == tables[0];
      assert tables[1..][n - 2] == tables[n - 1];
    }
  }

  /** The first n tables laid end to end: their record count is the sum of their counts, and each record's global id is its index plus one. */
  lemma {:induction false} GatheredPrefix(counts: seq<int>, tables: seq<seq<Cluster>>, n: nat)
    requires Renumbered(counts, tables) && n <= |tables|
    ensures |Concat(tables[..n])| == Sum(counts[..n])
    ensures IdsAreIndices(Concat(tables[..n]), 1)
  {
    if n == 0 {
      assert tables[..0] == [] && counts[..0] == [];
    } else {
      GatheredPrefix(counts, tables, n - 1);
      assert tables[..n][..n - 1] == tables[..n - 1];
      assert counts[..n][..n - 1] == counts[..n - 1];
      IdOffsetIsExclusivePrefix(counts, n - 1);
      var front: seq<Cluster>, last: seq<Cluster> := Concat(tables[..n - 1]), tables[n - 1];
      assert Concat(tables[..n]) == front + last;
      forall x | 0 <= x < |front + last|
        ensures (front + last)[x].globalId == x + 1
      {
        if x >= |front| {
          assert (front + last)[x] == last[x - |front|];
        }
      }
    }
  }

  /**
   * After the gather the coordinator's table has one record per cluster of
   * the whole lattice, and the record with global id g is at index g - 1:
   * the layout the merge relies on when it reads neighbour id g as index
   * g - idoffset with idoffset = 1.
   */
  lemma GatheredIdsAreIndices(counts: seq<int>, tables: seq<seq<Cluster>>)
    requires Renumbered(counts, tables)
    ensures |Concat(tables)| == Sum(counts)
    ensures IdsAreIndices(Concat(tables), 1)
  {
    GatheredPrefix(counts, tables, |tables|);
    assert tables[..|tables|] == tables && counts[..|counts|] == counts;
  }

  /** The gathered table's total volume is the sum of the ranks' volume sums (voltot). */
  lemma {:induction false} GatheredVolume(tables: seq<seq<Cluster>>, vols: seq<int>)
    requires |vols| == |tables| && forall r :: 0 <= r < |tables| ==> SumVolumes(tables[r]) == vols[r]
    ensures SumVolumes(Concat(tables)) == Sum(vols)
  {
    if tables != [] {
      var n := |tables|;
      GatheredVolume(tables[..n - 1], vols[..n - 1]);
      SumVolumesConcat(Concat(tables[..n - 1]), tables[n - 1]);
    }
  }

  /** Neighbour ids that are global ids of the whole lattice stay so in the gathered table. */
  lemma {:induction false} GatheredNeighbours(tables: seq<seq<Cluster>>, total: int)
    requires forall r :: 0 <= r < |tables| ==> NeighboursWithin(tables[r], total)
    ensures NeighboursWithin(Concat(tables), total)
  {
    if tables != [] {
      var n := |tables|;
      GatheredNeighbours(tables[..n - 1], total);
      var front: seq<Cluster>, last: seq<Cluster> := Concat(tables[..n - 1]), tables[n - 1];
      assert NeighboursWithin(last, total);
      forall x, t | 0 <= x < |front + last| && 0 <= t < |(front + last)[x].neighlist|
        ensures 1 <= (front + last)[x].neighlist[t] <= total
      {
        if x >= |front| {
          assert (front + last)[x] == last[x - |front|];
        }
      }
    }
  }

  /**
   * When every recorded neighbour id is one of the lattice's Sum(counts)
   * global ids, every neighbour id of the gathered table names one of its
   * records under the offset 1 the coordinator uses.
   */
  lemma GatheredWellIndexed(counts: seq<int>, tables: seq<seq<Cluster>>)
    requires Renumbered(counts, tables)
    requires forall r :: 0 <= r < |tables| ==> NeighboursWithin(tables[r], Sum(counts))
    ensures WellIndexed(Concat(tables), 1)
  {
    GatheredIdsAreIndices(counts, tables);
    GatheredNeighbours(tables, Sum(counts));
  }

  /**
   * What dump_clusters writes: two sites whose cluster_ids hold global ids g
   * and h are written with the same id exactly when the merge put records
   * g - 1 and h - 1 into the same group, and that id is the global id of
   * the group's first record.
   */
  lemma DumpedIdsAgree(counts: seq<int>, tables: seq<seq<Cluster>>, cl: seq<Cluster>, grp: seq<int>, g: int, h: int)
    requires Renumbered(counts, tables)
    requires Settled(Concat(tables), cl, grp, 1, |cl|)
    requires 1 <= g <= |cl| && 1 <= h <= |cl|
    ensures |cl| == Sum(counts)
    ensures cl[g - 1].globalId == cl[h - 1].globalId <==> grp[g - 1] == grp[h - 1]
    ensures cl[g - 1].globalId == grp[g - 1] + 1
  {
    GatheredIdsAreIndices(counts, tables);
    MergedIdsAgree(Concat(tables), cl, grp, 1, g - 1, h - 1);
  }

  /**
   * With symmetric neighbour lists, two sites whose cluster_ids hold global
   * ids g and h are dumped with the same id exactly when a chain of
   * neighbour links joins records g - 1 and h - 1 of the gathered table:
   * each connected cluster across the ranks gets one id.
   */
  lemma DumpedIdsConnected(counts: seq<int>, tables: seq<seq<Cluster>>, cl: seq<Cluster>, grp: seq<int>, g: int, h: int)
    requires Renumbered(counts, tables) && SymmetricLinks(Concat(tables), 1)
    requires Settled(Concat(tables), cl, grp, 1, |cl|)
    requires 1 <= g <= |cl| && 1 <= h <= |cl|
    ensures cl[g - 1].globalId == cl[h - 1].globalId <==> LinkReach(Concat(tables), 1, g - 1, h - 1)
  {
    DumpedIdsAgree(counts, tables, cl, grp, g, h);
    GroupsAreComponents(Concat(tables), cl, grp, 1, g - 1, h - 1);
  }
}
