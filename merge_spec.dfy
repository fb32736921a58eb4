/**
 * What the coordinator's merge of the gathered cluster table
 * (src/diag_cluster.cpp:331-373) does, stated over sequences. The merge is a
 * flood fill over the adjacency recorded in the neighbour lists: the record
 * with global id g sits at index g - idoffset. A ghost assignment grp maps
 * every record to the index of the record it was folded into (its
 * representative), or to -1 while it has not been reached.
 */
module MergeSpec {
  import opened ClusterRecords

  /** Every neighbour id of every record names a record of the table. */
  predicate WellIndexed(cl: seq<Cluster>, off: int)
  {
    forall x, t :: 0 <= x < |cl| && 0 <= t < |cl[x].neighlist| ==> 0 <= cl[x].neighlist[t] - off < |cl|
  }

  /** Record x lists record y as a neighbour. */
  ghost predicate Linked(cl: seq<Cluster>, off: int, x: int, y: int)
  {
    0 <= x < |cl| && exists t :: 0 <= t < |cl[x].neighlist| && cl[x].neighlist[t] - off == y
  }

  /** Adjacency is symmetric: whenever x lists y, y lists x. */
  ghost predicate SymmetricLinks(cl: seq<Cluster>, off: int)
  {
    forall x, y :: Linked(cl, off, x, y) ==> Linked(cl, off, y, x)
  }

  /** Step t of p goes from record p[t] to a record it lists. */
  ghost predicate LinkStep(cl: seq<Cluster>, off: int, p: seq<int>, t: int)
  {
    0 <= t < |p| - 1 && Linked(cl, off, p[t], p[t + 1])
  }

  /** A path through the table that follows neighbour lists. */
  ghost predicate LinkWalk(cl: seq<Cluster>, off: int, p: seq<int>)
  {
    && |p| >= 1
    && (forall t :: 0 <= t < |p| ==> 0 <= p[t] < |cl|)
    && (forall t :: 0 <= t < |p| - 1 ==> LinkStep(cl, off, p, t))
  }

  /** Record b can be reached from record a by following neighbour lists. */
  ghost predicate LinkReach(cl: seq<Cluster>, off: int, a: int, b: int)
  {
    exists p :: LinkWalk(cl, off, p) && p[0] == a && p[|p| - 1] == b
  }

  /** Every record reaches itself. */
  lemma LinkReachSelf(cl: seq<Cluster>, off: int, a: int)
    requires 0 <= a < |cl|
    ensures LinkReach(cl, off, a, a)
  {
    assert LinkWalk(cl, off, [a]);
  }

  /** A path to b extends by one step to a record that b lists. */
  lemma LinkReachStep(cl: seq<Cluster>, off: int, a: int, b: int, c: int)
    requires LinkReach(cl, off, a, b) && Linked(cl, off, b, c) && 0 <= c < |cl|
    ensures LinkReach(cl, off, a, c)
  {
    var p :| LinkWalk(cl, off, p) && p[0] == a && p[|p| - 1] == b;
    var q := p + [c];
    forall t | 0 <= t < |q| - 1
      ensures LinkStep(cl, off, q, t)
    {
      if t < |p| - 1 {
        assert LinkStep(cl, off, p, t);
        assert q[t] == p[t] && q[t + 1] == p[t + 1];
      }
    }
    assert LinkWalk(cl, off, q);
  }

  /** Two paths that meet at b join into one. */
  lemma LinkReachTrans(cl: seq<Cluster>, off: int, a: int, b: int, c: int)
    requires LinkReach(cl, off, a, b) && LinkReach(cl, off, b, c)
    ensures LinkReach(cl, off, a, c)
  {
    var p :| LinkWalk(cl, off, p) && p[0] == a && p[|p| - 1] == b;
    var q :| LinkWalk(cl, off, q) && q[0] == b && q[|q| - 1] == c;
    var w := p + q[1..];
    forall t | 0 <= t < |w| - 1
      ensures LinkStep(cl, off, w, t)
    {
      if t < |p| - 1 {
        assert LinkStep(cl, off, p, t);
        assert w[t] == p[t] && w[t + 1] == p[t + 1];
      } else {
        assert LinkStep(cl, off, q, t - |p| + 1);
        assert w[t] == q[t - |p| + 1] && w[t + 1] == q[t - |p| + 2];
      }
    }
    assert w[|w| - 1] == c;
    assert LinkWalk(cl, off, w);
  }

  /** With symmetric links, a path can be walked backwards. */
  lemma LinkReachBack(cl: seq<Cluster>, off: int, a: int, b: int)
    requires SymmetricLinks(cl, off) && LinkReach(cl, off, a, b)
    ensures LinkReach(cl, off, b, a)
  {
    var p :| LinkWalk(cl, off, p) && p[0] == a && p[|p| - 1] == b;
    var n := |p|;
    var r := seq(n, t requires 0 <= t < n => p[n - 1 - t]);
    forall t | 0 <= t < n - 1
      ensures LinkStep(cl, off, r, t)
    {
      assert LinkStep(cl, off, p, n - 2 - t);
      assert Linked(cl, off, p[n - 2 - t], p[n - 1 - t]);
    }
    assert LinkWalk(cl, off, r);
  }

  /** Every reached record can be reached from its representative through the links. */
  ghost predicate GroupsConnected(cl0: seq<Cluster>, grp: seq<int>, off: int)
  {
    forall x :: 0 <= x < |grp| && grp[x] != -1 ==> LinkReach(cl0, off, grp[x], x)
  }

  /** Every record counts at least one site, as after the local fill. */
  predicate PositiveVolumes(cl: seq<Cluster>)
  {
    forall x :: 0 <= x < |cl| ==> cl[x].volume > 0
  }

  /** Number of records whose volume is not zero. */
  function CountNonzero(cl: seq<Cluster>): nat
  {
    if cl == [] then 0 else CountNonzero(cl[..|cl| - 1]) + (if cl[|cl| - 1].volume != 0 then 1 else 0)
  }

  /** Total original volume of the records assigned to representative r. */
  function GroupSum(cl0: seq<Cluster>, grp: seq<int>, r: int): int
    requires |grp| == |cl0|
  {
    if grp == [] then 0
    else GroupSum(cl0[..|cl0| - 1], grp[..|grp| - 1], r) + (if grp[|grp| - 1] == r then cl0[|cl0| - 1].volume else 0)
  }

  /** Replacing one record moves it between the nonzero count and the rest. */
  lemma {:induction false} CountNonzeroUpdate(cl: seq<Cluster>, k: nat, c: Cluster)
    requires k < |cl|
    ensures CountNonzero(cl[k := c])
         == CountNonzero(cl) - (if cl[k].volume != 0 then 1 else 0) + (if c.volume != 0 then 1 else 0)
  {
    var cl' := cl[k := c];
    if k == |cl| - 1 {
      assert cl'[..|cl'| - 1] == cl[..|cl| - 1];
    } else {
      assert cl'[..|cl'| - 1] == cl[..|cl| - 1][k := c];
      CountNonzeroUpdate(cl[..|cl| - 1], k, c);
    }
  }

  /** Reassigning one record's representative moves its volume between the two group sums. */
  lemma {:induction false} GroupSumUpdate(cl0: seq<Cluster>, grp: seq<int>, y: nat, r': int, r: int)
    requires |grp| == |cl0| && y < |grp|
    ensures GroupSum(cl0, grp[y := r'], r)
         == GroupSum(cl0, grp, r) - (if grp[y] == r then cl0[y].volume else 0) + (if r' == r then cl0[y].volume else 0)
  {
    var grp' := grp[y := r'];
    if y == |grp| - 1 {
      assert grp'[..|grp'| - 1] == grp[..|grp| - 1];
    } else {
      assert grp'[..|grp'| - 1] == grp[..|grp| - 1][y := r'];
      GroupSumUpdate(cl0[..|cl0| - 1], grp[..|grp| - 1], y, r', r);
    }
  }

  /** A representative no record is assigned to has an empty group. */
  lemma {:induction false} GroupSumAbsent(cl0: seq<Cluster>, grp: seq<int>, r: int)
    requires |grp| == |cl0|
    requires forall x :: 0 <= x < |grp| ==> grp[x] != r
    ensures GroupSum(cl0, grp, r) == 0
  {
    if grp != [] {
      GroupSumAbsent(cl0[..|cl0| - 1], grp[..|grp| - 1], r);
    }
  }

  /** The counts over a prefix grow by the next record. */
  lemma PrefixStep(cl: seq<Cluster>, i: nat)
    requires i < |cl|
    ensures CountNonzero(cl[..i + 1]) == CountNonzero(cl[..i]) + (if cl[i].volume != 0 then 1 else 0)
    ensures SumVolumes(cl[..i + 1]) == SumVolumes(cl[..i]) + cl[i].volume
  {
    assert cl[..i + 1][..i] == cl[..i];
  }

  /**
   * Facts that hold whatever the links and the volumes: records not yet
   * reached are as they were, neighbour lists never change, and a reached
   * record carries the original global id of its representative.
   */
  ghost predicate Tracks(cl0: seq<Cluster>, cl: seq<Cluster>, grp: seq<int>)
  {
    && |cl| == |cl0| && |grp| == |cl0|
    && (forall x :: 0 <= x < |cl| ==> cl[x].neighlist == cl0[x].neighlist)
    && (forall x :: 0 <= x < |cl| && grp[x] == -1 ==> cl[x] == cl0[x])
    && (forall x :: 0 <= x < |cl| && grp[x] != -1 ==> 0 <= grp[x] < |cl| && cl[x].globalId == cl0[grp[x]].globalId)
  }

  /** Every neighbour of record x has the same representative as x. */
  ghost predicate ClosedAt(cl0: seq<Cluster>, grp: seq<int>, off: int, x: int)
  {
    && |grp| == |cl0| && 0 <= x < |cl0|
    && forall t :: 0 <= t < |cl0[x].neighlist| ==>
         0 <= cl0[x].neighlist[t] - off < |grp| && grp[cl0[x].neighlist[t] - off] == grp[x]
  }

  /**
   * A reached record of a finished group: its representative is an earlier
   * or the same index and represents itself, the group is closed under
   * adjacency at x, and x holds the group's total volume if it is the
   * representative and zero otherwise.
   */
  ghost predicate Finished(cl0: seq<Cluster>, cl: seq<Cluster>, grp: seq<int>, off: int, x: int)
    requires Tracks(cl0, cl, grp) && 0 <= x < |cl| && grp[x] != -1
  {
    && grp[x] <= x && grp[grp[x]] == grp[x]
    && ClosedAt(cl0, grp, off, x)
    && cl[x].volume == (if grp[x] == x then GroupSum(cl0, grp, x) else 0)
  }

  /**
   * The state between two iterations of the outer loop, before record i:
   * every reached record is reachable from its representative through the
   * links, and belongs to a finished group of an earlier representative.
   */
  ghost predicate Settled(cl0: seq<Cluster>, cl: seq<Cluster>, grp: seq<int>, off: int, i: int)
  {
    && Tracks(cl0, cl, grp) && 0 <= i <= |cl|
    && GroupsConnected(cl0, grp, off)
    && (forall x :: 0 <= x < i ==> grp[x] != -1)
    && (forall x :: 0 <= x < |cl| && grp[x] != -1 ==> grp[x] < i && Finished(cl0, cl, grp, off, x))
  }

  /**
   * The state while the group of representative i grows: every reached
   * record is reachable from its representative; earlier groups are
   * finished; members of group i lie at or after i, are zeroed, and are on the
   * stack, being expanded (pending) or closed; vol is the group's volume.
   */
  ghost predicate Growing(cl0: seq<Cluster>, cl: seq<Cluster>, grp: seq<int>, off: int, i: int,
                          stack: seq<int>, pending: int, vol: int)
  {
    && Tracks(cl0, cl, grp) && 0 <= i < |cl| && grp[i] == i
    && GroupsConnected(cl0, grp, off)
    && EarlierReached(grp, i)
    && OthersFinished(cl0, cl, grp, off, i)
    && MembersPending(cl0, cl, grp, off, i, stack, pending)
    && OnStack(cl, grp, i, stack)
    && vol == GroupSum(cl0, grp, i)
  }

  /** Every record before index i has been reached. */
  ghost predicate EarlierReached(grp: seq<int>, i: int)
  {
    i <= |grp| && forall x :: 0 <= x < i ==> grp[x] != -1
  }

  /** Every reached record outside group i belongs to a finished group. */
  ghost predicate OthersFinished(cl0: seq<Cluster>, cl: seq<Cluster>, grp: seq<int>, off: int, i: int)
  {
    && Tracks(cl0, cl, grp)
    && forall x :: 0 <= x < |cl| && grp[x] != -1 && grp[x] != i ==> grp[x] < i && Finished(cl0, cl, grp, off, x)
  }

  /** Members of group i lie at or after i, are zeroed, and are on the stack, pending or closed. */
  ghost predicate MembersPending(cl0: seq<Cluster>, cl: seq<Cluster>, grp: seq<int>, off: int, i: int,
                                 stack: seq<int>, pending: int)
  {
    && |cl| == |grp|
    && forall x :: 0 <= x < |cl| && grp[x] == i ==>
         i <= x && cl[x].volume == 0 && (x in stack || x == pending || ClosedAt(cl0, grp, off, x))
  }

  /** The stack holds members of group i only. */
  ghost predicate OnStack(cl: seq<Cluster>, grp: seq<int>, i: int, stack: seq<int>)
  {
    && |cl| == |grp|
    && forall t :: 0 <= t < |stack| ==> 0 <= stack[t] < |cl| && grp[stack[t]] == i
  }

  /**
   * The heart of the merge: with symmetric links, a neighbour of a member of
   * the growing group is either unreached or already in that group, never in
   * a finished one.
   */
  lemma NeighbourFree(cl0: seq<Cluster>, cl: seq<Cluster>, grp: seq<int>, off: int, i: int,
                      stack: seq<int>, pending: int, vol: int, x: int, t: int)
    requires Growing(cl0, cl, grp, off, i, stack, pending, vol)
    requires SymmetricLinks(cl0, off) && WellIndexed(cl0, off)
    requires 0 <= x < |cl| && grp[x] == i && 0 <= t < |cl0[x].neighlist|
    ensures grp[cl0[x].neighlist[t] - off] == -1 || grp[cl0[x].neighlist[t] - off] == i
  {
    var y := cl0[x].neighlist[t] - off;
    if grp[y] != -1 && grp[y] != i {
      assert Linked(cl0, off, x, y);
      assert false;
    }
  }

  /** Under symmetric links and positive volumes, a neighbour has nonzero volume exactly when it is unreached. */
  lemma PushDecision(cl0: seq<Cluster>, cl: seq<Cluster>, grp: seq<int>, off: int, i: int,
                     stack: seq<int>, pending: int, vol: int, x: int, t: int)
    requires Growing(cl0, cl, grp, off, i, stack, pending, vol)
    requires SymmetricLinks(cl0, off) && WellIndexed(cl0, off) && PositiveVolumes(cl0)
    requires 0 <= x < |cl| && grp[x] == i && 0 <= t < |cl0[x].neighlist|
    ensures var y := cl0[x].neighlist[t] - off;
      && 0 <= y < |cl| && (grp[y] == -1 || grp[y] == i)
      && (cl[y].volume != 0 <==> grp[y] == -1)
  {
    NeighbourFree(cl0, cl, grp, off, i, stack, pending, vol, x, t);
  }

  /** Assigning an unchanged-list record to representative r keeps the tracking facts. */
  lemma TracksStep(cl0: seq<Cluster>, cl: seq<Cluster>, grp: seq<int>, y: int, c: Cluster, r: int)
    requires Tracks(cl0, cl, grp) && 0 <= y < |cl| && 0 <= r < |cl|
    requires c.neighlist == cl[y].neighlist && c.globalId == cl0[r].globalId
    ensures Tracks(cl0, cl[y := c], grp[y := r])
  {
  }

  /**
   * Reaching the unreached record y leaves every finished record x of another
   * group finished: y is no neighbour of x, since x's group is closed.
   */
  lemma FinishedUnaffected(cl0: seq<Cluster>, cl: seq<Cluster>, grp: seq<int>, off: int, x: int, y: int,
                           c: Cluster, r: int)
    requires Tracks(cl0, cl, grp) && 0 <= x < |cl| && 0 <= y < |cl| && grp[y] == -1
    requires grp[y := r][x] != -1 && grp[y := r][x] != r
    requires grp[x] != -1 ==> Finished(cl0, cl, grp, off, x)
    requires Tracks(cl0, cl[y := c], grp[y := r])
    ensures Finished(cl0, cl[y := c], grp[y := r], off, x)
  {
    GroupSumUpdate(cl0, grp, y, r, grp[x]);
    ClosedUnaffected(cl0, grp, off, x, y, r);
  }

  /** Starting the group of an unreached record i keeps everything finished and puts i on the stack. */
  lemma SeedStep(cl0: seq<Cluster>, cl: seq<Cluster>, grp: seq<int>, off: int, i: int)
    requires Settled(cl0, cl, grp, off, i) && i < |cl| && grp[i] == -1
    ensures Growing(cl0, cl[i := cl[i].(volume := 0)], grp[i := i], off, i, [i], -1, cl0[i].volume)
  {
    var cl', grp' := cl[i := cl[i].(volume := 0)], grp[i := i];
    GroupSumAbsent(cl0, grp, i);
    GroupSumUpdate(cl0, grp, i, i, i);
    TracksStep(cl0, cl, grp, i, cl[i].(volume := 0), i);
    SeedConnected(cl0, grp, off, i);
    forall x | 0 <= x < |cl| && grp'[x] != -1 && grp'[x] != i
      ensures grp'[x] < i && Finished(cl0, cl', grp', off, x)
    {
      FinishedUnaffected(cl0, cl, grp, off, x, i, cl[i].(volume := 0), i);
    }
  }

  /**
   * Folding the neighbour y of the pending record into group i: y is zeroed,
   * relabelled with the representative's global id and pushed.
   */
  lemma FoldStep(cl0: seq<Cluster>, cl: seq<Cluster>, grp: seq<int>, off: int, i: int,
                 stack: seq<int>, pending: int, vol: int, y: int)
    requires Growing(cl0, cl, grp, off, i, stack, pending, vol)
    requires 0 <= y < |cl| && grp[y] == -1
    requires 0 <= pending < |cl| && grp[pending] == i && Linked(cl0, off, pending, y)
    ensures Growing(cl0, cl[y := cl[y].(globalId := cl0[i].globalId, volume := 0)], grp[y := i], off, i,
                    stack + [y], pending, vol + cl[y].volume)
  {
    var c := cl[y].(globalId := cl0[i].globalId, volume := 0);
    var cl', grp' := cl[y := c], grp[y := i];
    GroupSumUpdate(cl0, grp, y, i, i);
    TracksStep(cl0, cl, grp, y, c, i);
    OthersAfterFold(cl0, cl, grp, off, i, y, c);
    MembersAfterFold(cl0, cl, grp, off, i, stack, pending, vol, y, c);
    FoldConnected(cl0, grp, off, i, pending, y);
    assert OnStack(cl', grp', i, stack + [y]);
    assert EarlierReached(grp', i);
    assert vol + cl[y].volume == GroupSum(cl0, grp', i);
  }

  /** Starting a group at the unreached record i keeps every group reachable from its representative. */
  lemma SeedConnected(cl0: seq<Cluster>, grp: seq<int>, off: int, i: int)
    requires GroupsConnected(cl0, grp, off) && |grp| == |cl0| && 0 <= i < |grp|
    ensures GroupsConnected(cl0, grp[i := i], off)
  {
    var grp' := grp[i := i];
    forall x | 0 <= x < |grp'| && grp'[x] != -1
      ensures LinkReach(cl0, off, grp'[x], x)
    {
      if x == i {
        LinkReachSelf(cl0, off, i);
      }
    }
  }

  /**
   * Folding into group i a record y that the member pending lists keeps every
   * group reachable from its representative: y is one step past pending.
   */
  lemma FoldConnected(cl0: seq<Cluster>, grp: seq<int>, off: int, i: int, pending: int, y: int)
    requires GroupsConnected(cl0, grp, off) && |grp| == |cl0| && 0 <= y < |grp|
    requires 0 <= pending < |grp| && grp[pending] == i && Linked(cl0, off, pending, y)
    ensures GroupsConnected(cl0, grp[y := i], off)
  {
    var grp' := grp[y := i];
    forall x | 0 <= x < |grp'| && grp'[x] != -1
      ensures LinkReach(cl0, off, grp'[x], x)
    {
      if x == y {
        assert LinkReach(cl0, off, grp[pending], pending);
        LinkReachStep(cl0, off, i, pending, y);
      }
    }
  }

  /** The neighbours of the pending record examined so far all lie in group i, and the next one joins. */
  lemma ExpandStep(cl0: seq<Cluster>, grp: seq<int>, grp': seq<int>, off: int, i: int, pending: int, t: int)
    requires |grp| == |cl0| && 0 <= pending < |cl0| && 0 <= t < |cl0[pending].neighlist| && WellIndexed(cl0, off)
    requires forall u :: 0 <= u < t ==> grp[cl0[pending].neighlist[u] - off] == i
    requires |grp'| == |grp| && grp'[cl0[pending].neighlist[t] - off] == i
    requires forall z :: 0 <= z < |grp| && grp[z] == i ==> grp'[z] == i
    ensures forall u :: 0 <= u < t + 1 ==> grp'[cl0[pending].neighlist[u] - off] == i
  {
    forall u | 0 <= u < t + 1
      ensures grp'[cl0[pending].neighlist[u] - off] == i
    {
      var z := cl0[pending].neighlist[u] - off;
      assert 0 <= z < |grp|;
    }
  }

  lemma OthersAfterFold(cl0: seq<Cluster>, cl: seq<Cluster>, grp: seq<int>, off: int, i: int, y: int, c: Cluster)
    requires Tracks(cl0, cl, grp) && 0 <= i < |cl| && 0 <= y < |cl| && grp[y] == -1
    requires forall x :: 0 <= x < |cl| && grp[x] != -1 && grp[x] != i ==> grp[x] < i && Finished(cl0, cl, grp, off, x)
    requires Tracks(cl0, cl[y := c], grp[y := i])
    ensures OthersFinished(cl0, cl[y := c], grp[y := i], off, i)
  {
    var grp' := grp[y := i];
    forall x | 0 <= x < |cl| && grp'[x] != -1 && grp'[x] != i
      ensures grp'[x] < i && Finished(cl0, cl[y := c], grp', off, x)
    {
      FinishedUnaffected(cl0, cl, grp, off, x, y, c, i);
    }
  }

  lemma MembersAfterFold(cl0: seq<Cluster>, cl: seq<Cluster>, grp: seq<int>, off: int, i: int,
                         stack: seq<int>, pending: int, vol: int, y: int, c: Cluster)
    requires Growing(cl0, cl, grp, off, i, stack, pending, vol)
    requires 0 <= y < |cl| && grp[y] == -1 && c.volume == 0
    ensures MembersPending(cl0, cl[y := c], grp[y := i], off, i, stack + [y], pending)
  {
    forall x | 0 <= x < |cl| && grp[y := i][x] == i
      ensures i <= x && cl[y := c][x].volume == 0 && (x in stack + [y] || x == pending || ClosedAt(cl0, grp[y := i], off, x))
    {
      if x != y && !(x in stack) && x != pending {
        ClosedUnaffected(cl0, grp, off, x, y, i);
      }
    }
  }

  /** A closed record stays closed when an unreached record gets a representative: it is no neighbour. */
  lemma ClosedUnaffected(cl0: seq<Cluster>, grp: seq<int>, off: int, x: int, y: int, r: int)
    requires ClosedAt(cl0, grp, off, x) && 0 <= y < |grp| && grp[y] == -1 && grp[x] != -1
    ensures ClosedAt(cl0, grp[y := r], off, x)
  {
  }

  /** When the pending record's neighbours are all in group i, it is closed. */
  lemma CloseStep(cl0: seq<Cluster>, cl: seq<Cluster>, grp: seq<int>, off: int, i: int,
                  stack: seq<int>, pending: int, vol: int)
    requires Growing(cl0, cl, grp, off, i, stack, pending, vol)
    requires 0 <= pending < |cl| && grp[pending] == i && WellIndexed(cl0, off)
    requires forall u :: 0 <= u < |cl0[pending].neighlist| ==> grp[cl0[pending].neighlist[u] - off] == i
    ensures Growing(cl0, cl, grp, off, i, stack, -1, vol)
  {
    assert ClosedAt(cl0, grp, off, pending);
  }

  /** Popping the top of the stack makes it the pending record. */
  lemma PopStep(cl0: seq<Cluster>, cl: seq<Cluster>, grp: seq<int>, off: int, i: int,
                stack: seq<int>, vol: int)
    requires Growing(cl0, cl, grp, off, i, stack, -1, vol) && |stack| > 0
    ensures Growing(cl0, cl, grp, off, i, stack[..|stack| - 1], stack[|stack| - 1], vol)
  {
    forall x | 0 <= x < |cl| && grp[x] == i && x in stack
      ensures x in stack[..|stack| - 1] || x == stack[|stack| - 1]
    {
      var t :| 0 <= t < |stack| && stack[t] == x;
      if t < |stack| - 1 {
        assert stack[..|stack| - 1][t] == x;
      }
    }
  }

  /** With the stack empty the group is complete; its representative receives its volume. */
  lemma FinishStep(cl0: seq<Cluster>, cl: seq<Cluster>, grp: seq<int>, off: int, i: int, vol: int)
    requires Growing(cl0, cl, grp, off, i, [], -1, vol)
    ensures Settled(cl0, cl[i := cl[i].(volume := vol)], grp, off, i + 1)
  {
    var cl' := cl[i := cl[i].(volume := vol)];
    forall x | 0 <= x < |cl| && grp[x] != -1
      ensures grp[x] < i + 1 && Finished(cl0, cl', grp, off, x)
    {
      if grp[x] == i {
        assert ClosedAt(cl0, grp, off, x);
      } else {
        assert Finished(cl0, cl, grp, off, x);
      }
    }
  }

  /** A record already reached when the outer loop comes to it is skipped and stays finished. */
  lemma SkipStep(cl0: seq<Cluster>, cl: seq<Cluster>, grp: seq<int>, off: int, i: int)
    requires Settled(cl0, cl, grp, off, i) && i < |cl| && PositiveVolumes(cl0) && cl[i].volume == 0
    ensures grp[i] != -1 && grp[i] != i
    ensures Settled(cl0, cl, grp, off, i + 1)
  {
    if grp[i] != -1 {
      assert Finished(cl0, cl, grp, off, i);
    }
  }

  /** A record the outer loop finds with nonzero volume has not been reached. */
  lemma StartUnreached(cl0: seq<Cluster>, cl: seq<Cluster>, grp: seq<int>, off: int, i: int)
    requires Settled(cl0, cl, grp, off, i) && i < |cl| && cl[i].volume != 0
    ensures grp[i] == -1
  {
    if grp[i] != -1 {
      assert false;
    }
  }

  /** A group's volume is at least that of its representative when all volumes are positive. */
  lemma {:induction false} GroupSumAtLeast(cl0: seq<Cluster>, grp: seq<int>, r: nat)
    requires |grp| == |cl0| && PositiveVolumes(cl0) && r < |grp| && grp[r] == r
    ensures GroupSum(cl0, grp, r) >= cl0[r].volume
  {
    GroupSumNonNegative(cl0[..|cl0| - 1], grp[..|grp| - 1], r);
    if r < |grp| - 1 {
      GroupSumAtLeast(cl0[..|cl0| - 1], grp[..|grp| - 1], r);
    }
  }

  lemma {:induction false} GroupSumNonNegative(cl0: seq<Cluster>, grp: seq<int>, r: int)
    requires |grp| == |cl0| && PositiveVolumes(cl0)
    ensures GroupSum(cl0, grp, r) >= 0
  {
    if grp != [] {
      GroupSumNonNegative(cl0[..|cl0| - 1], grp[..|grp| - 1], r);
    }
  }

  /**
   * The state of the group loop (lines 351-370) for the group of record i
   * with global id id: the facts that hold whatever the links, and, when
   * good (symmetric links, positive volumes), the Growing state. clStart is
   * the table when the group started.
   */
  ghost predicate GroupInv(cl0: seq<Cluster>, off: int, i: int, id: int, good: bool,
                           cl: seq<Cluster>, grp: seq<int>, stack: seq<int>, vol: int, clStart: seq<Cluster>)
  {
    match good
    case false => GroupCommon(cl0, off, i, id, cl, grp, stack, vol, clStart)
    case true =>
      && GroupCommon(cl0, off, i, id, cl, grp, stack, vol, clStart)
      && SymmetricLinks(cl0, off) && PositiveVolumes(cl0)
      && Growing(cl0, cl, grp, off, i, stack, -1, vol) && vol >= 1 && cl[..i] == clStart[..i]
  }

  /** The part of the group loop's state that holds whatever the links and the volumes. */
  ghost predicate GroupCommon(cl0: seq<Cluster>, off: int, i: int, id: int,
                              cl: seq<Cluster>, grp: seq<int>, stack: seq<int>, vol: int, clStart: seq<Cluster>)
  {
    && |cl| == |clStart| && Tracks(cl0, cl, grp) && WellIndexed(cl0, off)
    && 0 <= i < |cl| && grp[i] == i && cl[i].volume == 0 && id == cl0[i].globalId
    && (forall t :: 0 <= t < |stack| ==> 0 <= stack[t] < |cl|)
    && SumVolumes(cl) + vol == SumVolumes(clStart)
    && (forall x :: i < x < |cl| && cl[x].volume != 0 ==> grp[x] == -1)
  }

  /**
   * The state of the neighbour scan of popped record ii after its first j
   * neighbours; cl1 and stack1 are the table and the stack when the scan
   * started.
   */
  ghost predicate FoldInv(cl0: seq<Cluster>, off: int, i: int, id: int, good: bool, ii: int, j: int,
                          cl: seq<Cluster>, grp: seq<int>, stack: seq<int>, vol: int, clStart: seq<Cluster>,
                          cl1: seq<Cluster>, stack1: seq<int>)
  {
    match good
    case false => FoldCommon(cl0, off, i, id, ii, j, cl, grp, stack, vol, clStart, cl1, stack1)
    case true =>
      && FoldCommon(cl0, off, i, id, ii, j, cl, grp, stack, vol, clStart, cl1, stack1)
      && SymmetricLinks(cl0, off) && PositiveVolumes(cl0)
      && Growing(cl0, cl, grp, off, i, stack, ii, vol) && vol >= 1 && cl[..i] == clStart[..i]
      && grp[ii] == i
      && forall u :: 0 <= u < j ==> grp[cl0[ii].neighlist[u] - off] == i
  }

  /** The part of the scan's state that holds whatever the links and the volumes. */
  ghost predicate FoldCommon(cl0: seq<Cluster>, off: int, i: int, id: int, ii: int, j: int,
                             cl: seq<Cluster>, grp: seq<int>, stack: seq<int>, vol: int, clStart: seq<Cluster>,
                             cl1: seq<Cluster>, stack1: seq<int>)
  {
    && |cl| == |clStart| && |cl1| == |cl| && Tracks(cl0, cl, grp) && WellIndexed(cl0, off)
    && 0 <= i < |cl| && grp[i] == i && cl[i].volume == 0 && id == cl0[i].globalId
    && 0 <= ii < |cl| && 0 <= j <= |cl0[ii].neighlist|
    && |stack| >= |stack1| && stack[..|stack1|] == stack1
    && (forall t :: 0 <= t < |stack| ==> 0 <= stack[t] < |cl|)
    && CountNonzero(cl) + (|stack| - |stack1|) == CountNonzero(cl1)
    && SumVolumes(cl) + vol == SumVolumes(clStart)
    && (forall x :: i < x < |cl| && cl[x].volume != 0 ==> grp[x] == -1)
  }

  /** Seeding the group of record i, whose volume is nonzero. */
  lemma GroupStart(cl0: seq<Cluster>, off: int, i: int, good: bool, cl: seq<Cluster>, grp: seq<int>,
                    nred: int, volsum: int)
    requires MergeInv(cl0, off, good, i, cl, grp, nred, volsum) && i < |cl| && cl[i].volume != 0
    ensures GroupInv(cl0, off, i, cl[i].globalId, good, cl[i := cl[i].(volume := 0)], grp[i := i], [i], cl[i].volume, cl)
  {
    var c := cl[i].(volume := 0);
    SumVolumesUpdate(cl, i, c);
    TracksStep(cl0, cl, grp, i, c, i);
    if good {
      SeedStep(cl0, cl, grp, off, i);
      assert cl[i := c][..i] == cl[..i];
    }
  }

  /** Popping the top of the stack starts the scan of its neighbours. */
  lemma PopToFold(cl0: seq<Cluster>, off: int, i: int, id: int, good: bool,
                  cl: seq<Cluster>, grp: seq<int>, stack: seq<int>, vol: int, clStart: seq<Cluster>)
    requires GroupInv(cl0, off, i, id, good, cl, grp, stack, vol, clStart) && |stack| > 0
    ensures var ii, rest := stack[|stack| - 1], stack[..|stack| - 1];
      FoldInv(cl0, off, i, id, good, ii, 0, cl, grp, rest, vol, clStart, cl, rest)
  {
    var rest := stack[..|stack| - 1];
    assert rest[..|rest|] == rest;
    if good {
      PopStep(cl0, cl, grp, off, i, stack, vol);
    }
  }

  /** The j-th neighbour of the popped record is a record of the table. */
  lemma FoldTarget(cl0: seq<Cluster>, off: int, i: int, id: int, good: bool, ii: int, j: int,
                   cl: seq<Cluster>, grp: seq<int>, stack: seq<int>, vol: int, clStart: seq<Cluster>,
                   cl1: seq<Cluster>, stack1: seq<int>)
    requires FoldInv(cl0, off, i, id, good, ii, j, cl, grp, stack, vol, clStart, cl1, stack1)
    requires j < |cl0[ii].neighlist|
    ensures 0 <= cl0[ii].neighlist[j] - off < |cl|
  {
  }

  /** A neighbour with nonzero volume is folded into the group and pushed. */
  lemma FoldPush(cl0: seq<Cluster>, off: int, i: int, id: int, good: bool, ii: int, j: int,
                 cl: seq<Cluster>, grp: seq<int>, stack: seq<int>, vol: int, clStart: seq<Cluster>,
                 cl1: seq<Cluster>, stack1: seq<int>, y: int)
    requires FoldInv(cl0, off, i, id, good, ii, j, cl, grp, stack, vol, clStart, cl1, stack1)
    requires j < |cl0[ii].neighlist| && y == cl0[ii].neighlist[j] - off
    requires 0 <= y < |cl| && cl[y].volume != 0
    ensures FoldInv(cl0, off, i, id, good, ii, j + 1, cl[y := cl[y].(globalId := id, volume := 0)], grp[y := i],
                    stack + [y], vol + cl[y].volume, clStart, cl1, stack1)
  {
    if good {
      PushDecision(cl0, cl, grp, off, i, stack, ii, vol, ii, j);
    }
    var c := cl[y].(globalId := id, volume := 0);
    CountNonzeroUpdate(cl, y, c);
    SumVolumesUpdate(cl, y, c);
    TracksStep(cl0, cl, grp, y, c, i);
    var stack' := stack + [y];
    assert stack'[..|stack1|] == stack1;
    if good {
      assert Linked(cl0, off, ii, y);
      FoldStep(cl0, cl, grp, off, i, stack, ii, vol, y);
      ExpandStep(cl0, grp, grp[y := i], off, i, ii, j);
      assert cl[y := c][..i] == cl[..i];
    }
  }

  /** A neighbour with zero volume already belongs to the group and is skipped. */
  lemma FoldSkip(cl0: seq<Cluster>, off: int, i: int, id: int, good: bool, ii: int, j: int,
                 cl: seq<Cluster>, grp: seq<int>, stack: seq<int>, vol: int, clStart: seq<Cluster>,
                 cl1: seq<Cluster>, stack1: seq<int>, y: int)
    requires FoldInv(cl0, off, i, id, good, ii, j, cl, grp, stack, vol, clStart, cl1, stack1)
    requires j < |cl0[ii].neighlist| && y == cl0[ii].neighlist[j] - off
    requires 0 <= y < |cl| && cl[y].volume == 0
    ensures FoldInv(cl0, off, i, id, good, ii, j + 1, cl, grp, stack, vol, clStart, cl1, stack1)
  {
    assert FoldCommon(cl0, off, i, id, ii, j + 1, cl, grp, stack, vol, clStart, cl1, stack1);
    if good {
      PushDecision(cl0, cl, grp, off, i, stack, ii, vol, ii, j);
      ExpandStep(cl0, grp, grp, off, i, ii, j);
    }
  }

  /**
   * One neighbour of the scan: its index is in bounds, and the scan's state
   * advances past it whether it is pushed (nonzero volume) or skipped.
   */
  lemma FoldNext(cl0: seq<Cluster>, off: int, i: int, id: int, good: bool, ii: int, j: int,
                 cl: seq<Cluster>, grp: seq<int>, stack: seq<int>, vol: int, clStart: seq<Cluster>,
                 cl1: seq<Cluster>, stack1: seq<int>, y: int)
    requires FoldInv(cl0, off, i, id, good, ii, j, cl, grp, stack, vol, clStart, cl1, stack1)
    requires j < |cl0[ii].neighlist| && y == cl0[ii].neighlist[j] - off
    ensures 0 <= y < |cl|
    ensures cl[y].volume != 0 ==>
              FoldInv(cl0, off, i, id, good, ii, j + 1, cl[y := cl[y].(globalId := id, volume := 0)], grp[y := i],
                      stack + [y], vol + cl[y].volume, clStart, cl1, stack1)
    ensures cl[y].volume == 0 ==> FoldInv(cl0, off, i, id, good, ii, j + 1, cl, grp, stack, vol, clStart, cl1, stack1)
  {
    FoldTarget(cl0, off, i, id, good, ii, j, cl, grp, stack, vol, clStart, cl1, stack1);
    if cl[y].volume != 0 {
      FoldPush(cl0, off, i, id, good, ii, j, cl, grp, stack, vol, clStart, cl1, stack1, y);
    } else {
      FoldSkip(cl0, off, i, id, good, ii, j, cl, grp, stack, vol, clStart, cl1, stack1, y);
    }
  }

  /** At the end of the scan the popped record is closed and the group loop's state holds again. */
  lemma FoldToGroup(cl0: seq<Cluster>, off: int, i: int, id: int, good: bool, ii: int,
                    cl: seq<Cluster>, grp: seq<int>, stack: seq<int>, vol: int, clStart: seq<Cluster>,
                    cl1: seq<Cluster>, stack1: seq<int>)
    requires 0 <= ii < |cl0|
    requires FoldInv(cl0, off, i, id, good, ii, |cl0[ii].neighlist|, cl, grp, stack, vol, clStart, cl1, stack1)
    ensures GroupInv(cl0, off, i, id, good, cl, grp, stack, vol, clStart)
  {
    if good {
      CloseStep(cl0, cl, grp, off, i, stack, ii, vol);
    }
  }

  /**
   * The state after the group of record i is complete: cl is the table,
   * grp the groups, vol the group's volume and clStart the table before the group.
   */
  ghost predicate GroupDone(cl0: seq<Cluster>, off: int, good: bool, i: int,
                            cl: seq<Cluster>, grp: seq<int>, vol: int, clStart: seq<Cluster>)
  {
    && Tracks(cl0, cl, grp) && |cl| == |clStart| && 0 <= i < |cl|
    && SumVolumes(cl) == SumVolumes(clStart) && cl[i].volume == vol
    && (forall x :: i < x < |cl| && cl[x].volume != 0 ==> grp[x] == -1)
    && (good ==> Settled(cl0, cl, grp, off, i + 1) && cl[..i] == clStart[..i] && vol != 0)
  }

  /** With the stack empty the representative receives the group's volume. */
  lemma GroupEnd(cl0: seq<Cluster>, off: int, i: int, id: int, good: bool,
                 cl: seq<Cluster>, grp: seq<int>, vol: int, clStart: seq<Cluster>)
    requires GroupInv(cl0, off, i, id, good, cl, grp, [], vol, clStart)
    ensures GroupDone(cl0, off, good, i, cl[i := cl[i].(volume := vol)], grp, vol, clStart)
  {
    var c := cl[i].(volume := vol);
    SumVolumesUpdate(cl, i, c);
    TracksStep(cl0, cl, grp, i, c, i);
    if good {
      FinishStep(cl0, cl, grp, off, i, vol);
      assert cl[i := c][..i] == cl[..i];
    }
  }

  /** The state of the merge's outer loop before record i. */
  ghost predicate MergeInv(cl0: seq<Cluster>, off: int, good: bool, i: int,
                           cl: seq<Cluster>, grp: seq<int>, nred: int, volsum: int)
  {
    match good
    case false => MergeCommon(cl0, off, i, cl, grp)
    case true =>
      && MergeCommon(cl0, off, i, cl, grp)
      && SymmetricLinks(cl0, off) && PositiveVolumes(cl0)
      && Settled(cl0, cl, grp, off, i)
      && nred == CountNonzero(cl[..i]) && volsum == SumVolumes(cl[..i])
  }

  /** The part of the merge's outer-loop state that holds whatever the links and the volumes. */
  ghost predicate MergeCommon(cl0: seq<Cluster>, off: int, i: int, cl: seq<Cluster>, grp: seq<int>)
  {
    && Tracks(cl0, cl, grp) && WellIndexed(cl0, off) && 0 <= i <= |cl|
    && SumVolumes(cl) == SumVolumes(cl0)
    && (forall x :: i <= x < |cl| && cl[x].volume != 0 ==> grp[x] == -1)
  }

  /** Before the first record nothing has been reached. */
  lemma MergeStart(cl0: seq<Cluster>, off: int, good: bool)
    requires WellIndexed(cl0, off)
    requires good ==> SymmetricLinks(cl0, off) && PositiveVolumes(cl0)
    ensures MergeInv(cl0, off, good, 0, cl0, seq(|cl0|, _ => -1), 0, 0)
  {
    assert cl0[..0] == [];
  }

  /** A record met with zero volume is skipped. */
  lemma MergeSkip(cl0: seq<Cluster>, off: int, good: bool, i: int,
                  cl: seq<Cluster>, grp: seq<int>, nred: int, volsum: int)
    requires MergeInv(cl0, off, good, i, cl, grp, nred, volsum) && i < |cl| && cl[i].volume == 0
    ensures MergeInv(cl0, off, good, i + 1, cl, grp, nred, volsum)
  {
    PrefixStep(cl, i);
    if good {
      SkipStep(cl0, cl, grp, off, i);
    }
  }

  /** A record met with nonzero volume is the representative of a new group. */
  lemma MergeGroupStep(cl0: seq<Cluster>, off: int, good: bool, i: int,
                       cl: seq<Cluster>, grp: seq<int>, nred: int, volsum: int,
                       cl': seq<Cluster>, grp': seq<int>, vol: int)
    requires MergeInv(cl0, off, good, i, cl, grp, nred, volsum) && i < |cl| && cl[i].volume != 0
    requires GroupDone(cl0, off, good, i, cl', grp', vol, cl)
    ensures MergeInv(cl0, off, good, i + 1, cl', grp', nred + 1, volsum + vol)
  {
    PrefixStep(cl', i);
  }

  /** After the last record the whole table is settled. */
  lemma MergeEnd(cl0: seq<Cluster>, off: int, good: bool, cl: seq<Cluster>, grp: seq<int>, nred: int, volsum: int)
    requires MergeInv(cl0, off, good, |cl|, cl, grp, nred, volsum)
    ensures good ==> && Settled(cl0, cl, grp, off, |cl|) && nred == CountNonzero(cl) && volsum == SumVolumes(cl0)
  {
    assert cl[..|cl|] == cl;
  }

  /** The record with global id g sits at index g - off, as in the coordinator's gathered table. */
  predicate IdsAreIndices(cl0: seq<Cluster>, off: int)
  {
    forall k :: 0 <= k < |cl0| ==> cl0[k].globalId == k + off
  }

  /** After the merge, records that list each other carry the same global id. */
  lemma LinkedShareId(cl0: seq<Cluster>, cl: seq<Cluster>, grp: seq<int>, off: int, x: int, y: int)
    requires Settled(cl0, cl, grp, off, |cl|) && Linked(cl0, off, x, y)
    ensures 0 <= y < |cl| && cl[x].globalId == cl[y].globalId
  {
    var t :| 0 <= t < |cl0[x].neighlist| && cl0[x].neighlist[t] - off == y;
    assert Finished(cl0, cl, grp, off, x);
    assert grp[y] == grp[x];
  }

  /**
   * After the merge, when global ids were table indices plus off, two records
   * carry the same global id exactly when they were folded into the same group.
   */
  lemma MergedIdsAgree(cl0: seq<Cluster>, cl: seq<Cluster>, grp: seq<int>, off: int, x: int, y: int)
    requires Settled(cl0, cl, grp, off, |cl|) && IdsAreIndices(cl0, off)
    requires 0 <= x < |cl| && 0 <= y < |cl|
    ensures cl[x].globalId == cl[y].globalId <==> grp[x] == grp[y]
    ensures cl[x].globalId == grp[x] + off
  {
    assert grp[x] != -1 && grp[y] != -1;
  }

  /**
   * After the merge with positive volumes, the records left with nonzero
   * volume are exactly the representatives, each holding at least its own
   * original volume.
   */
  lemma RepresentativesNonzero(cl0: seq<Cluster>, cl: seq<Cluster>, grp: seq<int>, off: int, x: int)
    requires Settled(cl0, cl, grp, off, |cl|) && PositiveVolumes(cl0) && 0 <= x < |cl|
    ensures cl[x].volume != 0 <==> grp[x] == x
    ensures grp[x] == x ==> cl[x].volume >= cl0[x].volume
  {
    assert grp[x] != -1 && Finished(cl0, cl, grp, off, x);
    if grp[x] == x {
      GroupSumAtLeast(cl0, grp, x);
    }
  }

  /** Every record's neighbours are in its group. */
  ghost predicate GroupsClosed(cl0: seq<Cluster>, grp: seq<int>, off: int)
  {
    forall x :: 0 <= x < |cl0| ==> ClosedAt(cl0, grp, off, x)
  }

  /** After the merge every group is closed under the links. */
  lemma SettledClosed(cl0: seq<Cluster>, cl: seq<Cluster>, grp: seq<int>, off: int)
    requires Settled(cl0, cl, grp, off, |cl|)
    ensures GroupsClosed(cl0, grp, off)
  {
    forall x | 0 <= x < |cl0|
      ensures ClosedAt(cl0, grp, off, x)
    {
      assert grp[x] != -1 && Finished(cl0, cl, grp, off, x);
    }
  }

  /** With closed groups, every record along a path of links is in the group of the path's first record. */
  lemma {:induction false} PathShareGroup(cl0: seq<Cluster>, grp: seq<int>, off: int, p: seq<int>, k: nat)
    requires |grp| == |cl0| && GroupsClosed(cl0, grp, off) && LinkWalk(cl0, off, p) && k < |p|
    ensures grp[p[k]] == grp[p[0]]
  {
    if k > 0 {
      PathShareGroup(cl0, grp, off, p, k - 1);
      assert LinkStep(cl0, off, p, k - 1);
      var x := p[k - 1];
      var t :| 0 <= t < |cl0[x].neighlist| && cl0[x].neighlist[t] - off == p[k];
      assert ClosedAt(cl0, grp, off, x);
    }
  }

  /**
   * After the merge with symmetric links, two records are in the same group
   * exactly when a path of links joins them: the groups are the connected
   * components of the adjacency the neighbour lists record.
   */
  lemma GroupsAreComponents(cl0: seq<Cluster>, cl: seq<Cluster>, grp: seq<int>, off: int, x: int, y: int)
    requires Settled(cl0, cl, grp, off, |cl|) && SymmetricLinks(cl0, off)
    requires 0 <= x < |cl| && 0 <= y < |cl|
    ensures grp[x] == grp[y] <==> LinkReach(cl0, off, x, y)
  {
    if grp[x] == grp[y] {
      assert grp[x] != -1 && grp[y] != -1;
      assert LinkReach(cl0, off, grp[x], x) && LinkReach(cl0, off, grp[y], y);
      LinkReachBack(cl0, off, grp[x], x);
      LinkReachTrans(cl0, off, x, grp[x], y);
    }
    if LinkReach(cl0, off, x, y) {
      var p :| LinkWalk(cl0, off, p) && p[0] == x && p[|p| - 1] == y;
      SettledClosed(cl0, cl, grp, off);
      PathShareGroup(cl0, grp, off, p, |p| - 1);
    }
  }
}

