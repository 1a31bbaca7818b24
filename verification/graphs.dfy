/**
 * The graphs the algorithms of utils/shortest_paths.hpp walk: nodes are natural
 * numbers (the concept indices of CauseNet) and a neighbour function gives the
 * successors of a node, each with the weight of the edge to it.
 */
module Graphs {

  /** neighborfn: the successors of a node, each with the weight of the edge to it. */
  type Neighbors = nat -> seq<(nat, int)>

  /** The edges leave no node below n for a node at or above it. */
  predicate Closed(nbrs: Neighbors, n: nat)
  {
    forall u, k :: 0 <= u < n && 0 <= k < |nbrs(u)| ==> nbrs(u)[k].0 < n
  }

  /** There is an edge from u to v. */
  predicate Edge(nbrs: Neighbors, u: nat, v: nat)
  {
    exists k :: 0 <= k < |nbrs(u)| && nbrs(u)[k].0 == v
  }

  /** p is a walk along edges from a to b. */
  predicate IsPath(nbrs: Neighbors, p: seq<nat>, a: nat, b: nat)
  {
    |p| >= 1 && p[0] == a && p[|p| - 1] == b &&
    forall i :: 0 <= i < |p| - 1 ==> Edge(nbrs, p[i], p[i + 1])
  }

  ghost predicate Reachable(nbrs: Neighbors, a: nat, b: nat)
  {
    exists p :: IsPath(nbrs, p, a, b)
  }

  /** Every edge between nodes below n has its reverse: an undirected graph. */
  ghost predicate Symmetric(nbrs: Neighbors, n: nat)
  {
    forall u: nat, v: nat :: u < n && v < n && Edge(nbrs, u, v) ==> Edge(nbrs, v, u)
  }

  /** A walk extended by one edge. */
  lemma {:induction false} PathSnoc(nbrs: Neighbors, p: seq<nat>, a: nat, b: nat, c: nat)
    requires IsPath(nbrs, p, a, b) && Edge(nbrs, b, c)
    ensures IsPath(nbrs, p + [c], a, c)
  {
    var q := p + [c];
    forall i | 0 <= i < |q| - 1
      ensures Edge(nbrs, q[i], q[i + 1])
    {
      if i < |p| - 1 {
        assert q[i] == p[i] && q[i + 1] == p[i + 1];
      }
    }
  }

  /** Two walks joined where the first ends and the second starts. */
  lemma {:induction false} PathConcat(nbrs: Neighbors, p: seq<nat>, q: seq<nat>, a: nat, b: nat, c: nat)
    requires IsPath(nbrs, p, a, b) && IsPath(nbrs, q, b, c)
    ensures IsPath(nbrs, p + q[1..], a, c)
  {
    var r := p + q[1..];
    forall i | 0 <= i < |r| - 1
      ensures Edge(nbrs, r[i], r[i + 1])
    {
      if i < |p| - 1 {
        assert r[i] == p[i] && r[i + 1] == p[i + 1];
      } else {
        var j := i - |p| + 1;
        assert r[i] == q[j] && r[i + 1] == q[j + 1];
      }
    }
  }

  /** Every node of a walk that starts below n stays below n. */
  lemma {:induction false} PathInside(nbrs: Neighbors, n: nat, p: seq<nat>, a: nat, b: nat)
    requires Closed(nbrs, n) && IsPath(nbrs, p, a, b) && a < n
    ensures forall i :: 0 <= i < |p| ==> p[i] < n
  {
    var i := 0;
    while i < |p| - 1
      invariant 0 <= i <= |p| - 1
      invariant forall j :: 0 <= j <= i ==> p[j] < n
    {
      assert Edge(nbrs, p[i], p[i + 1]);
      i := i + 1;
    }
  }

  /** In an undirected graph a walk can be walked backwards. */
  lemma {:induction false} PathReverse(nbrs: Neighbors, n: nat, p: seq<nat>, a: nat, b: nat)
    requires Closed(nbrs, n) && Symmetric(nbrs, n) && IsPath(nbrs, p, a, b) && a < n
    ensures Reachable(nbrs, b, a)
    decreases |p|
  {
    if |p| == 1 {
      assert IsPath(nbrs, [a], b, a);
    } else {
      PathInside(nbrs, n, p, a, b);
      var init := p[..|p| - 1];
      var c := p[|p| - 2];
      assert IsPath(nbrs, init, a, c) by {
        forall i | 0 <= i < |init| - 1
          ensures Edge(nbrs, init[i], init[i + 1])
        {
          assert init[i] == p[i] && init[i + 1] == p[i + 1];
        }
      }
      PathReverse(nbrs, n, init, a, c);
      var back :| IsPath(nbrs, back, c, a);
      assert Edge(nbrs, c, b);
      assert Edge(nbrs, b, c);
      var step := [b, c];
      assert IsPath(nbrs, step, b, c);
      PathConcat(nbrs, step, back, b, c, a);
    }
  }
}
