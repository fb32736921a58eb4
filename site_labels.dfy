/**
 * Counting how many slots of the site-label array (cluster_ids) carry a given
 * label. The volume of local cluster k is the number of sites labelled k.
 */
module SiteLabels {

  /** Number of positions of s holding label k. */
  function CountOf(s: seq<int>, k: int): nat
  {
    if s == [] then 0 else CountOf(s[..|s| - 1], k) + (if s[|s| - 1] == k then 1 else 0)
  }

  /** Relabelling one slot moves it from its old label's count to its new label's count. */
  lemma {:induction false} CountOfUpdate(s: seq<int>, p: nat, v: int, k: int)
    requires p < |s|
    ensures CountOf(s[p := v], k)
         == CountOf(s, k) - (if s[p] == k then 1 else 0) + (if v == k then 1 else 0)
  {
    var s' := s[p := v];
    if p == |s| - 1 {
      assert s'[..|s'| - 1] == s[..|s| - 1];
    } else {
      assert s'[..|s'| - 1] == s[..|s| - 1][p := v];
      CountOfUpdate(s[..|s| - 1], p, v, k);
    }
  }

  /** A label that no slot carries has count zero. */
  lemma {:induction false} CountOfAbsent(s: seq<int>, k: int)
    requires forall i :: 0 <= i < |s| ==> s[i] != k
    ensures CountOf(s, k) == 0
  {
    if s != [] {
      CountOfAbsent(s[..|s| - 1], k);
    }
  }

  /** A label that some slot carries has a positive count. */
  lemma {:induction false} CountOfPresent(s: seq<int>, i: nat, k: int)
    requires i < |s| && s[i] == k
    ensures CountOf(s, k) >= 1
  {
    if i < |s| - 1 {
      CountOfPresent(s[..|s| - 1], i, k);
    }
  }

  /** Counting over a concatenation adds the counts of the two parts. */
  lemma {:induction false} CountOfConcat(a: seq<int>, b: seq<int>, k: int)
    ensures CountOf(a + b, k) == CountOf(a, k) + CountOf(b, k)
  {
    if b == [] {
      assert a + b == a;
    } else {
      assert (a + b)[..|a + b| - 1] == a + b[..|b| - 1];
      CountOfConcat(a, b[..|b| - 1], k);
    }
  }

  /** Adding d to every label moves each count along with its label. */
  lemma {:induction false} CountOfShift(s: seq<int>, s': seq<int>, d: int, k: int)
    requires |s'| == |s| && forall i :: 0 <= i < |s| ==> s'[i] == s[i] + d
    ensures CountOf(s', k + d) == CountOf(s, k)
  {
    if s != [] {
      CountOfShift(s[..|s| - 1], s'[..|s'| - 1], d, k);
    }
  }

  /** In a sequence where every slot carries k, the count of k is the length. */
  lemma {:induction false} CountOfUniform(s: seq<int>, k: int)
    requires forall i :: 0 <= i < |s| ==> s[i] == k
    ensures CountOf(s, k) == |s|
  {
    if s != [] {
      CountOfUniform(s[..|s| - 1], k);
    }
  }
}
