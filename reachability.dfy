/**
 * Connectivity between owned sites: a walk steps from an owned site to a
 * connected owned neighbour, and one site reaches another when a walk leads
 * from the first to the second. This is the relation whose classes the local
 * flood fill computes.
 */
module Reachability {
  import opened AppLattice

  /** Step t of p goes from owned site p[t] to a connected neighbour p[t + 1]. */
  ghost predicate Step(lat: Lattice, p: seq<int>, t: int)
  {
    && lat.Valid() && 0 <= t < |p| - 1 && 0 <= p[t] < lat.nlocal
    && ConnectedNeighbor(lat, p[t], p[t + 1])
  }

  /** A walk over owned sites, each step to a connected neighbour. */
  ghost predicate Walk(lat: Lattice, p: seq<int>)
  {
    && lat.Valid() && |p| >= 1
    && (forall t :: 0 <= t < |p| ==> 0 <= p[t] < lat.nlocal)
    && (forall t :: 0 <= t < |p| - 1 ==> Step(lat, p, t))
  }

  /** Owned site b can be reached from owned site a through connected neighbours. */
  ghost predicate Reachable(lat: Lattice, a: int, b: int)
  {
    exists p :: Walk(lat, p) && p[0] == a && p[|p| - 1] == b
  }

  /** Every owned site reaches itself. */
  lemma ReachSelf(lat: Lattice, a: int)
    requires lat.Valid() && 0 <= a < lat.nlocal
    ensures Reachable(lat, a, a)
  {
    assert Walk(lat, [a]);
  }

  /** A walk to b extends by one step to a connected owned neighbour c of b. */
  lemma ReachStep(lat: Lattice, a: int, b: int, c: int)
    requires Reachable(lat, a, b) && 0 <= b < lat.nlocal && 0 <= c < lat.nlocal
    requires lat.Valid() && ConnectedNeighbor(lat, b, c)
    ensures Reachable(lat, a, c)
  {
    var p :| Walk(lat, p) && p[0] == a && p[|p| - 1] == b;
    var q := p + [c];
    forall t | 0 <= t < |q| - 1
      ensures Step(lat, q, t)
    {
      if t < |p| - 1 {
        assert Step(lat, p, t);
        assert q[t] == p[t] && q[t + 1] == p[t + 1];
      }
    }
    assert Walk(lat, q);
  }

  /** Two walks that meet at b join into one. */
  lemma ReachTrans(lat: Lattice, a: int, b: int, c: int)
    requires Reachable(lat, a, b) && Reachable(lat, b, c)
    ensures Reachable(lat, a, c)
  {
    var p :| Walk(lat, p) && p[0] == a && p[|p| - 1] == b;
    var q :| Walk(lat, q) && q[0] == b && q[|q| - 1] == c;
    var w := p + q[1..];
    forall t | 0 <= t < |w| - 1
      ensures Step(lat, w, t)
    {
      if t < |p| - 1 {
        assert Step(lat, p, t);
        assert w[t] == p[t] && w[t + 1] == p[t + 1];
      } else {
        assert Step(lat, q, t - |p| + 1);
        assert w[t] == q[t - |p| + 1] && w[t + 1] == q[t - |p| + 2];
      }
    }
    assert w[|w| - 1] == c;
    assert Walk(lat, w);
  }

  /** On a lattice with symmetric adjacency, a connected step can be taken back. */
  lemma StepBack(lat: Lattice, a: int, b: int)
    requires lat.Valid() && lat.SymmetricNeighbours()
    requires 0 <= a < lat.nlocal && 0 <= b < lat.nlocal && ConnectedNeighbor(lat, a, b)
    ensures ConnectedNeighbor(lat, b, a)
  {
    var t :| 0 <= t < |lat.neighbor[a]| && lat.neighbor[a][t] == b && Connected(lat, a, b);
    assert a in lat.neighbor[b];
    var u :| 0 <= u < |lat.neighbor[b]| && lat.neighbor[b][u] == a;
  }

  /** On a lattice with symmetric adjacency, reachability goes both ways. */
  lemma ReachBack(lat: Lattice, a: int, b: int)
    requires lat.SymmetricNeighbours() && Reachable(lat, a, b)
    ensures Reachable(lat, b, a)
  {
    var p :| Walk(lat, p) && p[0] == a && p[|p| - 1] == b;
    var n := |p|;
    var r := seq(n, t requires 0 <= t < n => p[n - 1 - t]);
    forall t | 0 <= t < n - 1
      ensures Step(lat, r, t)
    {
      assert Step(lat, p, n - 2 - t);
      StepBack(lat, p[n - 2 - t], p[n - 1 - t]);
    }
    assert Walk(lat, r);
  }
}
