/**
 * The two callbacks that the lattice application supplies to the cluster
 * diagnostic: push_connected_neighbors (used by the local flood fill) and
 * connected_ghosts (used to find cluster adjacency across process
 * boundaries). Their C++ bodies live in the application and are not part of
 * this model; here each is written out once, over a lattice given as the
 * neighbour lists of the owned sites and a per-site value, and specified by
 * its contract. Two sites are connected when they hold the same value, as
 * in the Ising-style applications.
 */
module AppLattice {
  import opened ClusterRecords
  import opened SiteLabels

  /**
   * The part of one process's lattice the diagnostic looks at: owned sites are
   * 0 .. nlocal-1, ghost sites nlocal .. nlocal+nghost-1; neighbor[i] lists
   * the neighbours of owned site i (owned or ghost), spin[j] the value of site j.
   */
  datatype Lattice = Lattice(nlocal: nat, nghost: nat, neighbor: seq<seq<int>>, spin: seq<int>)
  {
    ghost predicate Valid()
    {
      && |neighbor| == nlocal
      && |spin| == nlocal + nghost
      && forall i, t :: 0 <= i < nlocal && 0 <= t < |neighbor[i]| ==> 0 <= neighbor[i][t] < nlocal + nghost
    }

    /** Adjacency between owned sites goes both ways, as on every lattice the applications build. */
    ghost predicate SymmetricNeighbours()
    {
      && |neighbor| == nlocal
      && forall i, t :: 0 <= i < nlocal && 0 <= t < |neighbor[i]| && 0 <= neighbor[i][t] < nlocal ==>
           i in neighbor[neighbor[i][t]]
    }
  }

  /** The application's connectivity predicate. */
  predicate Connected(lat: Lattice, i: int, j: int)
    requires 0 <= i < |lat.spin| && 0 <= j < |lat.spin|
  {
    lat.spin[i] == lat.spin[j]
  }

  /** Site j is a neighbour of owned site i and connected to it. */
  ghost predicate ConnectedNeighbor(lat: Lattice, i: nat, j: int)
    requires lat.Valid() && i < lat.nlocal
  {
    exists t :: 0 <= t < |lat.neighbor[i]| && lat.neighbor[i][t] == j && Connected(lat, i, j)
  }

  /**
   * push_connected_neighbors: every neighbour of site i that is still
   * unlabelled (label 0) and connected to i is labelled id and pushed on the
   * stack; nothing else changes. Ghost sites carry -1 during the fill, so
   * they are never pushed.
   */
  method PushConnectedNeighbors(lat: Lattice, i: nat, ids: array<int>, id: int, stack: seq<int>)
    returns (stack': seq<int>)
    requires lat.Valid() && i < lat.nlocal && ids.Length == lat.nlocal + lat.nghost
    requires id != 0
    modifies ids
    ensures |stack| <= |stack'| && stack'[..|stack|] == stack
    ensures forall t :: |stack| <= t < |stack'| ==>
              && 0 <= stack'[t] < ids.Length
              && old(ids[stack'[t]]) == 0
              && ids[stack'[t]] == id
              && ConnectedNeighbor(lat, i, stack'[t])
    ensures forall p :: 0 <= p < ids.Length ==> ids[p] == old(ids[p]) || (old(ids[p]) == 0 && ids[p] == id)
    ensures forall p :: 0 <= p < ids.Length && old(ids[p]) == 0 && ids[p] != 0 ==> p in stack'
    ensures forall t :: (0 <= t < |lat.neighbor[i]| && Connected(lat, i, lat.neighbor[i][t]) &&
                         old(ids[lat.neighbor[i][t]]) == 0) ==> ids[lat.neighbor[i][t]] == id
    ensures CountOf(ids[..], 0) + (|stack'| - |stack|) == CountOf(old(ids[..]), 0)
    ensures CountOf(ids[..], id) == CountOf(old(ids[..]), id) + (|stack'| - |stack|)
    ensures forall k :: k != 0 && k != id ==> CountOf(ids[..], k) == CountOf(old(ids[..]), k)
  {
    stack' := stack;
    var nbrs := lat.neighbor[i];
    for t := 0 to |nbrs|
      invariant |stack| <= |stack'| && stack'[..|stack|] == stack
      invariant forall u :: |stack| <= u < |stack'| ==>
                  && 0 <= stack'[u] < ids.Length
                  && old(ids[stack'[u]]) == 0
                  && ids[stack'[u]] == id
                  && ConnectedNeighbor(lat, i, stack'[u])
      invariant forall p :: 0 <= p < ids.Length ==> ids[p] == old(ids[p]) || (old(ids[p]) == 0 && ids[p] == id)
      invariant forall p :: 0 <= p < ids.Length && old(ids[p]) == 0 && ids[p] != 0 ==> p in stack'
      invariant forall u :: 0 <= u < t && Connected(lat, i, nbrs[u]) && old(ids[nbrs[u]]) == 0 ==> ids[nbrs[u]] == id
      invariant CountOf(ids[..], 0) + (|stack'| - |stack|) == CountOf(old(ids[..]), 0)
      invariant CountOf(ids[..], id) == CountOf(old(ids[..]), id) + (|stack'| - |stack|)
      invariant forall k :: k != 0 && k != id ==> CountOf(ids[..], k) == CountOf(old(ids[..]), k)
    {
      var j := nbrs[t];
      if ids[j] == 0 && Connected(lat, i, j) {
        ghost var before := ids[..];
        ids[j] := id;
        assert ids[..] == before[j := id];
        CountOfUpdate(before, j, id, 0);
        CountOfUpdate(before, j, id, id);
        forall k | k != 0 && k != id
          ensures CountOf(ids[..], k) == CountOf(before, k)
        {
          CountOfUpdate(before, j, id, k);
        }
        assert ConnectedNeighbor(lat, i, j);
        stack' := stack' + [j];
      }
    }
  }

  /** Owned site i touches the ghost site j, the two are connected, and j carries a different id. */
  predicate GhostEdge(lat: Lattice, ids: seq<int>, i: nat, j: int)
    requires lat.Valid() && i < lat.nlocal && |ids| == lat.nlocal + lat.nghost
    requires 0 <= j < |ids|
  {
    lat.nlocal <= j && Connected(lat, i, j) && ids[j] != ids[i]
  }

  /** The ids found across ghost edges among the first n neighbours of owned site i. */
  function LinkedGhostIds(lat: Lattice, ids: seq<int>, i: nat, n: nat): set<int>
    requires lat.Valid() && i < lat.nlocal && |ids| == lat.nlocal + lat.nghost
    requires n <= |lat.neighbor[i]|
  {
    set t | 0 <= t < n && GhostEdge(lat, ids, i, lat.neighbor[i][t]) :: ids[lat.neighbor[i][t]]
  }

  function Elems(s: seq<int>): set<int>
  {
    set x | x in s
  }

  predicate NoDuplicates(s: seq<int>)
  {
    forall a, b :: 0 <= a < b < |s| ==> s[a] != s[b]
  }

  /**
   * connected_ghosts: the cluster of owned site i (at index ids[i] - idoffset
   * of the local table) gains, without duplicates, the id of every connected
   * ghost neighbour whose id differs from its own; no other record and no
   * other field changes.
   */
  method ConnectedGhosts(lat: Lattice, i: nat, ids: array<int>, clustlist: seq<Cluster>, idoffset: int)
    returns (cl': seq<Cluster>)
    requires lat.Valid() && i < lat.nlocal && ids.Length == lat.nlocal + lat.nghost
    requires 0 <= ids[i] - idoffset < |clustlist|
    ensures |cl'| == |clustlist|
    ensures forall k :: 0 <= k < |cl'| && k != ids[i] - idoffset ==> cl'[k] == clustlist[k]
    ensures var k := ids[i] - idoffset;
      && cl'[k].globalId == clustlist[k].globalId
      && cl'[k].volume == clustlist[k].volume
      && Elems(cl'[k].neighlist) == Elems(clustlist[k].neighlist) + LinkedGhostIds(lat, ids[..], i, |lat.neighbor[i]|)
      && (NoDuplicates(clustlist[k].neighlist) ==> NoDuplicates(cl'[k].neighlist))
  {
    cl' := clustlist;
    var nbrs := lat.neighbor[i];
    var own := ids[i];
    var k := own - idoffset;
    for t := 0 to |nbrs|
      invariant |cl'| == |clustlist|
      invariant forall k' :: 0 <= k' < |cl'| && k' != k ==> cl'[k'] == clustlist[k']
      invariant cl'[k].globalId == clustlist[k].globalId && cl'[k].volume == clustlist[k].volume
      invariant Elems(cl'[k].neighlist) == Elems(clustlist[k].neighlist) + LinkedGhostIds(lat, ids[..], i, t)
      invariant NoDuplicates(clustlist[k].neighlist) ==> NoDuplicates(cl'[k].neighlist)
    {
      var j := nbrs[t];
      ghost var linked := LinkedGhostIds(lat, ids[..], i, t);
      if lat.nlocal <= j && Connected(lat, i, j) && ids[j] != own {
        var g := ids[j];
        assert LinkedGhostIds(lat, ids[..], i, t + 1) == linked + {g};
        if g !in cl'[k].neighlist {
          var nl := cl'[k].neighlist;
          assert Elems(nl + [g]) == Elems(nl) + {g};
          cl' := cl'[k := cl'[k].(neighlist := nl + [g])];
        }
      } else {
        assert LinkedGhostIds(lat, ids[..], i, t + 1) == linked;
      }
    }
  }
}
