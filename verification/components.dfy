/**
 * utils::connectedComponents: labels every node below numNodes with the number of
 * its component. The labels start at 1 (0 is "unassigned"); each round takes the
 * first unassigned node as the root of a new component and marks everything it
 * reaches, breadth first. The assertion of the inner loop, that a neighbour is
 * either unassigned or already in the current component, fails when an edge leads
 * into an earlier component; the model returns None there.
 */
module Components {
  import opened Wrappers
  import opened Graphs

  /** The mark of a node no component has claimed yet. */
  const UNASSIGNED: nat := 0

  /** The number of unassigned nodes. */
  function Unassigned(m: seq<nat>): nat
    decreases |m|
  {
    if m == [] then 0
    else (if m[|m| - 1] == UNASSIGNED then 1 else 0) + Unassigned(m[..|m| - 1])
  }

  /** Claiming an unassigned node leaves one fewer. */
  lemma {:induction false} UnassignedMark(m: seq<nat>, i: nat, c: nat)
    requires i < |m| && m[i] == UNASSIGNED && c != UNASSIGNED
    ensures Unassigned(m[i := c]) == Unassigned(m) - 1
    decreases |m|
  {
    var m' := m[i := c];
    assert m'[..|m'| - 1] == if i == |m| - 1 then m[..|m| - 1] else m[..|m| - 1][i := c];
    if i < |m| - 1 {
      UnassignedMark(m[..|m| - 1], i, c);
    }
  }

  /** std::find(marks, unassigned): the first unassigned position, or |m| for none. */
  function FirstUnassigned(m: seq<nat>): (i: nat)
    ensures i <= |m|
    ensures forall j :: 0 <= j < i ==> m[j] != UNASSIGNED
    ensures i < |m| ==> m[i] == UNASSIGNED
    decreases |m|
  {
    if m == [] || m[0] == UNASSIGNED then 0
    else 1 + FirstUnassigned(m[1..])
  }

  /** The first position holding x. */
  function FirstOf(m: seq<nat>, x: nat): (u: nat)
    requires x in m
    ensures u < |m| && m[u] == x
    ensures forall j :: 0 <= j < u ==> m[j] != x
    decreases |m|
  {
    if m[0] == x then 0 else 1 + FirstOf(m[1..], x)
  }

  // ---------------------------------------------------------------------------
  // What a finished labelling promises.

  /** Every edge between nodes below |m| joins two nodes of the same label. */
  predicate Consistent(nbrs: Neighbors, m: seq<nat>)
  {
    forall u, k :: 0 <= u < |m| && 0 <= k < |nbrs(u)| && nbrs(u)[k].0 < |m| ==> m[nbrs(u)[k].0] == m[u]
  }

  /** Every node is assigned, and the labels in use are 1, 2, ... without a gap. */
  predicate Numbered(m: seq<nat>)
  {
    forall v :: 0 <= v < |m| ==> m[v] != UNASSIGNED && (forall x :: 1 <= x < m[v] ==> x in m)
  }

  /**
   * Labels are handed out in order of each component's lowest-index node: every
   * node before the first node of a label has a smaller label.
   */
  predicate FirstSeenOrder(m: seq<nat>)
  {
    forall v, j :: 0 <= v < |m| && 0 <= j < FirstOf(m, m[v]) ==> m[j] < m[v]
  }

  /** Every node is reached from the first node of its label. */
  ghost predicate Spanned(nbrs: Neighbors, m: seq<nat>)
  {
    forall v :: 0 <= v < |m| ==> Reachable(nbrs, FirstOf(m, m[v]), v)
  }

  /**
   * Some labelling of the n nodes is consistent along edges and has every node
   * reached from the first node of its label, as the result of a successful run has.
   */
  ghost predicate Labelable(nbrs: Neighbors, n: nat)
  {
    exists m: seq<nat> :: |m| == n && Consistent(nbrs, m) && Spanned(nbrs, m)
  }

  // ---------------------------------------------------------------------------
  // The invariants of the search. c is the label of the current component and
  // roots[i] the root of label i + 1; paths gives each marked node a walk from
  // its root.

  predicate Labels(m: seq<nat>, c: nat)
  {
    forall v :: 0 <= v < |m| ==> m[v] <= c
  }

  /** The components before c are closed under edges. */
  predicate Finished(nbrs: Neighbors, m: seq<nat>, c: nat)
  {
    forall v, k :: 0 <= v < |m| && 1 <= m[v] < c && 0 <= k < |nbrs(v)| && nbrs(v)[k].0 < |m| ==>
      m[nbrs(v)[k].0] == m[v]
  }

  /** A node of component c that is neither queued nor being expanded has all its neighbours in c. */
  predicate Expanded(nbrs: Neighbors, m: seq<nat>, c: nat, queue: seq<nat>, current: int)
  {
    forall v, k ::
      (0 <= v < |m| && m[v] == c && v !in queue && v != current && 0 <= k < |nbrs(v)| && nbrs(v)[k].0 < |m|) ==>
        m[nbrs(v)[k].0] == c
  }

  /** The queue holds nodes of component c. */
  predicate Queued(m: seq<nat>, c: nat, queue: seq<nat>)
  {
    forall i :: 0 <= i < |queue| ==> queue[i] < |m| && m[queue[i]] == c
  }

  ghost predicate Rooted(nbrs: Neighbors, m: seq<nat>, roots: seq<nat>, paths: map<nat, seq<nat>>)
  {
    forall v :: 0 <= v < |m| && m[v] != UNASSIGNED ==>
      m[v] <= |roots| && v in paths && IsPath(nbrs, paths[v], roots[m[v] - 1], v)
  }

  /** Each root carries its label and every node before it has an earlier, assigned label. */
  predicate RootsFirst(m: seq<nat>, roots: seq<nat>)
  {
    forall i :: 0 <= i < |roots| ==>
      roots[i] < |m| && m[roots[i]] == i + 1 &&
      forall j :: 0 <= j < roots[i] ==> m[j] != UNASSIGNED && m[j] < i + 1
  }

  ghost predicate Marking(nbrs: Neighbors, m: seq<nat>, c: nat, queue: seq<nat>, current: int,
                          roots: seq<nat>, paths: map<nat, seq<nat>>)
  {
    Closed(nbrs, |m|) && c == |roots| && Labels(m, c) && Finished(nbrs, m, c) &&
    Expanded(nbrs, m, c, queue, current) && Queued(m, c, queue) &&
    Rooted(nbrs, m, roots, paths) && RootsFirst(m, roots)
  }

  // ---------------------------------------------------------------------------
  // Marking one node keeps the invariants.

  lemma {:induction false} MarkFinished(nbrs: Neighbors, m: seq<nat>, c: nat, w: nat)
    requires w < |m| && m[w] == UNASSIGNED && Finished(nbrs, m, c)
    ensures Finished(nbrs, m[w := c], c)
  {
    var m' := m[w := c];
    forall v, k | 0 <= v < |m'| && 1 <= m'[v] < c && 0 <= k < |nbrs(v)| && nbrs(v)[k].0 < |m'|
      ensures m'[nbrs(v)[k].0] == m'[v]
    {
      assert m[v] == m'[v];
      assert m[nbrs(v)[k].0] == m[v];
    }
  }

  lemma {:induction false} MarkExpanded(nbrs: Neighbors, m: seq<nat>, c: nat, queue: seq<nat>, current: int, w: nat)
    requires w < |m| && m[w] == UNASSIGNED && c != UNASSIGNED && Expanded(nbrs, m, c, queue, current)
    ensures Expanded(nbrs, m[w := c], c, queue + [w], current)
  {
    var m' := m[w := c];
    forall v, k | 0 <= v < |m'| && m'[v] == c && v !in queue + [w] && v != current &&
      0 <= k < |nbrs(v)| && nbrs(v)[k].0 < |m'|
      ensures m'[nbrs(v)[k].0] == c
    {
      assert v !in queue;
      assert m[v] == c;
      assert m[nbrs(v)[k].0] == c;
    }
  }

  lemma {:induction false} MarkRooted(nbrs: Neighbors, m: seq<nat>, c: nat, roots: seq<nat>, paths: map<nat, seq<nat>>, u: nat, w: nat)
    requires w < |m| && m[w] == UNASSIGNED && 1 <= c <= |roots|
    requires u < |m| && m[u] == c && Edge(nbrs, u, w)
    requires Rooted(nbrs, m, roots, paths)
    ensures Rooted(nbrs, m[w := c], roots, paths[w := paths[u] + [w]])
  {
    var m' := m[w := c];
    var paths' := paths[w := paths[u] + [w]];
    PathSnoc(nbrs, paths[u], roots[c - 1], u, w);
    forall v | 0 <= v < |m'| && m'[v] != UNASSIGNED
      ensures m'[v] <= |roots| && v in paths' && IsPath(nbrs, paths'[v], roots[m'[v] - 1], v)
    {
      if v != w {
        assert m'[v] == m[v];
      }
    }
  }

  lemma {:induction false} MarkRootsFirst(m: seq<nat>, roots: seq<nat>, c: nat, w: nat)
    requires w < |m| && m[w] == UNASSIGNED && RootsFirst(m, roots)
    ensures RootsFirst(m[w := c], roots)
  {
    var m' := m[w := c];
    forall i | 0 <= i < |roots|
      ensures roots[i] < |m'| && m'[roots[i]] == i + 1
      ensures forall j :: 0 <= j < roots[i] ==> m'[j] != UNASSIGNED && m'[j] != i + 1
    {
      assert m[roots[i]] == i + 1;
      forall j | 0 <= j < roots[i]
        ensures m'[j] != UNASSIGNED && m'[j] != i + 1
      {
        assert m[j] != UNASSIGNED;
      }
    }
  }

  lemma {:induction false} MarkQueued(m: seq<nat>, c: nat, queue: seq<nat>, w: nat)
    requires w < |m| && m[w] == UNASSIGNED && Queued(m, c, queue)
    ensures Queued(m[w := c], c, queue + [w])
  {
    var m' := m[w := c];
    forall i | 0 <= i < |queue + [w]|
      ensures (queue + [w])[i] < |m'| && m'[(queue + [w])[i]] == c
    {
      if i < |queue| {
        assert (queue + [w])[i] == queue[i];
      }
    }
  }

  lemma {:induction false} MarkLabels(m: seq<nat>, c: nat, w: nat)
    requires w < |m| && Labels(m, c)
    ensures Labels(m[w := c], c)
  {
  }

  /** The invariants after marking w, a neighbour of the node u being expanded. */
  lemma {:induction false} MarkKeeps(nbrs: Neighbors, m: seq<nat>, c: nat, queue: seq<nat>, u: nat,
                                     roots: seq<nat>, paths: map<nat, seq<nat>>, w: nat)
    requires Marking(nbrs, m, c, queue, u, roots, paths) && c >= 1
    requires w < |m| && m[w] == UNASSIGNED && u < |m| && m[u] == c && Edge(nbrs, u, w)
    ensures Marking(nbrs, m[w := c], c, queue + [w], u, roots, paths[w := paths[u] + [w]])
    ensures Unassigned(m[w := c]) == Unassigned(m) - 1
  {
    var m' := m[w := c];
    MarkFinished(nbrs, m, c, w);
    MarkExpanded(nbrs, m, c, queue, u, w);
    MarkRooted(nbrs, m, c, roots, paths, u, w);
    MarkRootsFirst(m, roots, c, w);
    UnassignedMark(m, w, c);
    MarkQueued(m, c, queue, w);
    MarkLabels(m, c, w);
  }

  /**
   * An edge from the current component into an earlier one, the case the
   * assertion rejects, cannot occur in an undirected graph: the earlier
   * component would have claimed the node the edge comes from.
   */
  lemma {:induction false} Asymmetric(nbrs: Neighbors, m: seq<nat>, c: nat, u: nat, k: nat)
    requires Labels(m, c) && Finished(nbrs, m, c)
    requires u < |m| && m[u] == c && k < |nbrs(u)|
    requires nbrs(u)[k].0 < |m| && m[nbrs(u)[k].0] != UNASSIGNED && m[nbrs(u)[k].0] != c
    ensures Edge(nbrs, u, nbrs(u)[k].0) && !Edge(nbrs, nbrs(u)[k].0, u)
    ensures !Symmetric(nbrs, |m|)
  {
    var w := nbrs(u)[k].0;
    assert Edge(nbrs, u, w);
    forall k' | 0 <= k' < |nbrs(w)|
      ensures nbrs(w)[k'].0 != u
    {
      assert nbrs(w)[k'].0 < |m| ==> m[nbrs(w)[k'].0] == m[w];
    }
  }

  /** Everything a path leads to from a finished component is in that component. */
  lemma {:induction false} FinishedPath(nbrs: Neighbors, m: seq<nat>, c: nat, p: seq<nat>, a: nat, b: nat)
    requires Closed(nbrs, |m|) && Finished(nbrs, m, c) && IsPath(nbrs, p, a, b)
    requires a < |m| && 1 <= m[a] < c
    ensures b < |m| && m[b] == m[a]
  {
    PathInside(nbrs, |m|, p, a, b);
    var i := 0;
    while i < |p| - 1
      invariant 0 <= i <= |p| - 1
      invariant m[p[i]] == m[a]
    {
      assert Edge(nbrs, p[i], p[i + 1]);
      var k :| 0 <= k < |nbrs(p[i])| && nbrs(p[i])[k].0 == p[i + 1];
      i := i + 1;
    }
  }

  /**
   * An edge from component c into an earlier component c' rules out every labelling
   * l that is consistent and spanned: the root of c reaches the edge's target, as
   * the root of c' does, so both roots share a label in l; the first node of that
   * label comes before the root of c and lies in a finished component, so it cannot
   * reach the root of c.
   */
  lemma {:induction false} EarlierTarget(nbrs: Neighbors, m: seq<nat>, c: nat, queue: seq<nat>, u: nat,
                                         roots: seq<nat>, paths: map<nat, seq<nat>>, k: nat, l: seq<nat>)
    requires Marking(nbrs, m, c, queue, u, roots, paths) && c >= 1 && u < |m| && m[u] == c
    requires k < |nbrs(u)| && nbrs(u)[k].0 < |m| && m[nbrs(u)[k].0] != UNASSIGNED && m[nbrs(u)[k].0] != c
    requires |l| == |m|
    ensures !(Consistent(nbrs, l) && Spanned(nbrs, l))
  {
    var w := nbrs(u)[k].0;
    var r := roots[c - 1];
    var r' := roots[m[w] - 1];
    if Consistent(nbrs, l) {
      assert Edge(nbrs, u, w);
      PathSnoc(nbrs, paths[u], r, u, w);
      PathSameLabel(nbrs, l, paths[u] + [w], r, w);
      PathSameLabel(nbrs, l, paths[w], r', w);
      var f := FirstOf(l, l[r]);
      assert f <= r' < r;
      assert 1 <= m[f] < c;
      if Reachable(nbrs, f, r) {
        var p :| IsPath(nbrs, p, f, r);
        FinishedPath(nbrs, m, c, p, f, r);
        assert false;
      }
      assert !Reachable(nbrs, FirstOf(l, l[r]), r);
    }
  }

  // ---------------------------------------------------------------------------
  // The algorithm.

  /** The first k neighbours are in component c. */
  predicate Claimed(m: seq<nat>, c: nat, nbs: seq<(nat, int)>, k: nat)
  {
    k <= |nbs| && forall j :: 0 <= j < k ==> nbs[j].0 < |m| && m[nbs[j].0] == c
  }

  lemma {:induction false} ClaimNew(m: seq<nat>, c: nat, nbs: seq<(nat, int)>, k: nat, u: nat)
    requires k < |nbs| && nbs[k].0 < |m| && m[nbs[k].0] == UNASSIGNED && c != UNASSIGNED
    requires Claimed(m, c, nbs, k) && u < |m| && m[u] == c
    ensures Claimed(m[nbs[k].0 := c], c, nbs, k + 1) && m[nbs[k].0 := c][u] == c
    ensures |m[nbs[k].0 := c]| == |m|
  {
  }

  lemma {:induction false} ClaimSeen(m: seq<nat>, c: nat, nbs: seq<(nat, int)>, k: nat)
    requires k < |nbs| && nbs[k].0 < |m| && m[nbs[k].0] == c && Claimed(m, c, nbs, k)
    ensures Claimed(m, c, nbs, k + 1)
  {
  }

  /** Once all its neighbours are in c, the node being expanded is done. */
  lemma {:induction false} ClaimedAll(nbrs: Neighbors, m: seq<nat>, c: nat, queue: seq<nat>, u: nat, nbs: seq<(nat, int)>)
    requires nbs == nbrs(u) && Claimed(m, c, nbs, |nbs|) && Expanded(nbrs, m, c, queue, u)
    ensures Expanded(nbrs, m, c, queue, -1)
  {
  }

  /** One turn of the inner for loop: the k-th neighbour of u. */
  method ExpandEdge(marks: seq<nat>, queue: seq<nat>, c: nat, u: nat, nbs: seq<(nat, int)>, k: nat,
                    ghost nbrs: Neighbors, ghost roots: seq<nat>, ghost paths: map<nat, seq<nat>>)
    returns (marks': seq<nat>, queue': seq<nat>, ok: bool, ghost paths': map<nat, seq<nat>>)
    requires nbs == nbrs(u) && k < |nbs| && c >= 1 && u < |marks| && marks[u] == c
    requires Marking(nbrs, marks, c, queue, u, roots, paths) && Claimed(marks, c, nbs, k)
    ensures |marks'| == |marks|
    ensures ok ==> marks'[u] == c && Marking(nbrs, marks', c, queue', u, roots, paths') && Claimed(marks', c, nbs, k + 1)
    ensures ok ==> 2 * Unassigned(marks') + |queue'| <= 2 * Unassigned(marks) + |queue|
    ensures ok ==> Unassigned(marks') <= Unassigned(marks)
    ensures !ok ==> !Symmetric(nbrs, |marks|) && !Labelable(nbrs, |marks|)
  {
    var w := nbs[k].0;
    if marks[w] != UNASSIGNED && marks[w] != c {
      Asymmetric(nbrs, marks, c, u, k);
      forall l: seq<nat> | |l| == |marks|
        ensures !(Consistent(nbrs, l) && Spanned(nbrs, l))
      {
        EarlierTarget(nbrs, marks, c, queue, u, roots, paths, k, l);
      }
      return marks, queue, false, paths;
    }
    if marks[w] == UNASSIGNED {
      assert Edge(nbrs, u, w);
      MarkKeeps(nbrs, marks, c, queue, u, roots, paths, w);
      ClaimNew(marks, c, nbs, k, u);
      marks' := marks[w := c];
      queue' := queue + [w];
      paths' := paths[w := paths[u] + [w]];
    } else {
      ClaimSeen(marks, c, nbs, k);
      marks', queue', paths' := marks, queue, paths;
    }
    ok := true;
  }

  /**
   * The inner for loop: expands node u of component c, marking and queueing its
   * unassigned neighbours; false when a neighbour belongs to another component.
   */
  method ExpandNode(marks: seq<nat>, queue: seq<nat>, c: nat, u: nat, nbs: seq<(nat, int)>,
                    ghost nbrs: Neighbors, ghost roots: seq<nat>, ghost paths: map<nat, seq<nat>>)
    returns (marks': seq<nat>, queue': seq<nat>, ok: bool, ghost paths': map<nat, seq<nat>>)
    requires nbs == nbrs(u) && c >= 1 && u < |marks| && marks[u] == c
    requires Marking(nbrs, marks, c, queue, u, roots, paths)
    ensures |marks'| == |marks|
    ensures ok ==> Marking(nbrs, marks', c, queue', -1, roots, paths')
    ensures ok ==> 2 * Unassigned(marks') + |queue'| <= 2 * Unassigned(marks) + |queue|
    ensures ok ==> Unassigned(marks') <= Unassigned(marks)
    ensures !ok ==> !Symmetric(nbrs, |marks|) && !Labelable(nbrs, |marks|)
  {
    marks', queue', paths' := marks, queue, paths;
    for k := 0 to |nbs|
      invariant |marks'| == |marks| && marks'[u] == c
      invariant Marking(nbrs, marks', c, queue', u, roots, paths')
      invariant Claimed(marks', c, nbs, k)
      invariant 2 * Unassigned(marks') + |queue'| <= 2 * Unassigned(marks) + |queue|
      invariant Unassigned(marks') <= Unassigned(marks)
    {
      var ok';
      marks', queue', ok', paths' := ExpandEdge(marks', queue', c, u, nbs, k, nbrs, roots, paths');
      if !ok' {
        return marks', queue', false, paths';
      }
    }
    ClaimedAll(nbrs, marks', c, queue', u, nbs);
    ok := true;
  }

  /** Expanding the queue's front node leaves the rest of the queue and that node. */
  lemma {:induction false} PopFront(nbrs: Neighbors, m: seq<nat>, c: nat, queue: seq<nat>,
                                    roots: seq<nat>, paths: map<nat, seq<nat>>)
    requires queue != [] && Marking(nbrs, m, c, queue, -1, roots, paths)
    ensures Marking(nbrs, m, c, queue[1..], queue[0], roots, paths)
  {
    forall v, k | 0 <= v < |m| && m[v] == c && v !in queue[1..] && v != queue[0] &&
      0 <= k < |nbrs(v)| && nbrs(v)[k].0 < |m|
      ensures m[nbrs(v)[k].0] == c
    {
      assert queue == [queue[0]] + queue[1..];
    }
    assert forall i :: 0 <= i < |queue[1..]| ==> queue[1..][i] == queue[i + 1];
  }

  /** Starting component c at root: the invariants with the root alone in the queue. */
  lemma {:induction false} StartComponent(nbrs: Neighbors, m: seq<nat>, c: nat, root: nat,
                                          roots: seq<nat>, paths: map<nat, seq<nat>>)
    requires Closed(nbrs, |m|) && c == |roots| + 1
    requires root == FirstUnassigned(m) && root < |m|
    requires Labels(m, c - 1) && Finished(nbrs, m, c) && Rooted(nbrs, m, roots, paths) && RootsFirst(m, roots)
    ensures Marking(nbrs, m[root := c], c, [root], -1, roots + [root], paths[root := [root]])
    ensures Unassigned(m[root := c]) == Unassigned(m) - 1
  {
    UnassignedMark(m, root, c);
    MarkFinished(nbrs, m, c, root);
    MarkLabels(m, c, root);
    StartRooted(nbrs, m, c, root, roots, paths);
    StartRootsFirst(m, c, root, roots);
    StartExpanded(nbrs, m, c, root);
  }

  lemma {:induction false} StartRooted(nbrs: Neighbors, m: seq<nat>, c: nat, root: nat,
                                       roots: seq<nat>, paths: map<nat, seq<nat>>)
    requires c == |roots| + 1 && root < |m|
    requires Rooted(nbrs, m, roots, paths)
    ensures Rooted(nbrs, m[root := c], roots + [root], paths[root := [root]])
  {
    var m' := m[root := c];
    var roots' := roots + [root];
    var paths' := paths[root := [root]];
    forall v | 0 <= v < |m'| && m'[v] != UNASSIGNED
      ensures m'[v] <= |roots'| && v in paths' && IsPath(nbrs, paths'[v], roots'[m'[v] - 1], v)
    {
      if v != root {
        assert m'[v] == m[v];
        assert roots'[m[v] - 1] == roots[m[v] - 1];
      }
    }
  }

  lemma {:induction false} StartRootsFirst(m: seq<nat>, c: nat, root: nat, roots: seq<nat>)
    requires c == |roots| + 1 && root == FirstUnassigned(m) && root < |m|
    requires Labels(m, c - 1) && RootsFirst(m, roots)
    ensures RootsFirst(m[root := c], roots + [root])
  {
    var m' := m[root := c];
    var roots' := roots + [root];
    MarkRootsFirst(m, roots, c, root);
    forall i | 0 <= i < |roots'|
      ensures roots'[i] < |m'| && m'[roots'[i]] == i + 1
      ensures forall j :: 0 <= j < roots'[i] ==> m'[j] != UNASSIGNED && m'[j] != i + 1
    {
      if i < |roots| {
        assert roots'[i] == roots[i];
      } else {
        forall j | 0 <= j < root
          ensures m'[j] != UNASSIGNED && m'[j] != i + 1
        {
          assert m[j] <= c - 1;
        }
      }
    }
  }

  lemma {:induction false} StartExpanded(nbrs: Neighbors, m: seq<nat>, c: nat, root: nat)
    requires root < |m| && c >= 1 && Labels(m, c - 1)
    ensures Expanded(nbrs, m[root := c], c, [root], -1)
  {
    var m' := m[root := c];
    forall v | 0 <= v < |m'|
      ensures m'[v] != c || v == root
    {
      assert v != root ==> m'[v] == m[v];
    }
  }

  /** An empty queue closes component c. */
  lemma {:induction false} CloseComponent(nbrs: Neighbors, m: seq<nat>, c: nat, roots: seq<nat>, paths: map<nat, seq<nat>>)
    requires Marking(nbrs, m, c, [], -1, roots, paths)
    ensures Finished(nbrs, m, c + 1)
  {
    forall v, k | 0 <= v < |m| && 1 <= m[v] < c + 1 && 0 <= k < |nbrs(v)| && nbrs(v)[k].0 < |m|
      ensures m[nbrs(v)[k].0] == m[v]
    {
      if m[v] == c {
        assert v !in [];
      }
    }
  }

  /**
   * The body of the outer loop: marks the component of the first unassigned node
   * root, breadth first from a FIFO queue.
   */
  method MarkComponent(marks: seq<nat>, c: nat, root: nat, nbrs: Neighbors,
                       ghost roots: seq<nat>, ghost paths: map<nat, seq<nat>>)
    returns (marks': seq<nat>, ok: bool, ghost roots': seq<nat>, ghost paths': map<nat, seq<nat>>)
    requires Closed(nbrs, |marks|) && c == |roots| + 1
    requires root == FirstUnassigned(marks) && root < |marks|
    requires Labels(marks, c - 1) && Finished(nbrs, marks, c) && Rooted(nbrs, marks, roots, paths) && RootsFirst(marks, roots)
    ensures |marks'| == |marks|
    ensures ok ==> |roots'| == c && Labels(marks', c) && Finished(nbrs, marks', c + 1)
    ensures ok ==> Rooted(nbrs, marks', roots', paths') && RootsFirst(marks', roots')
    ensures ok ==> Unassigned(marks') < Unassigned(marks)
    ensures !ok ==> !Symmetric(nbrs, |marks|) && !Labelable(nbrs, |marks|)
  {
    StartComponent(nbrs, marks, c, root, roots, paths);
    marks' := marks[root := c];
    roots', paths' := roots + [root], paths[root := [root]];
    var queue := [root];
    while queue != []
      invariant |marks'| == |marks|
      invariant Marking(nbrs, marks', c, queue, -1, roots', paths')
      invariant Unassigned(marks') < Unassigned(marks)
      decreases 2 * Unassigned(marks') + |queue|
    {
      var u := queue[0];
      PopFront(nbrs, marks', c, queue, roots', paths');
      queue := queue[1..];
      marks', queue, ok, paths' := ExpandNode(marks', queue, c, u, nbrs(u), nbrs, roots', paths');
      if !ok {
        return;
      }
    }
    ok := true;
    CloseComponent(nbrs, marks', c, roots', paths');
  }

  /** After the last round: every node assigned, so the labelling is complete. */
  lemma {:induction false} Complete(nbrs: Neighbors, m: seq<nat>, c: nat, roots: seq<nat>, paths: map<nat, seq<nat>>)
    requires FirstUnassigned(m) == |m| && c == |roots| + 1
    requires Labels(m, c - 1) && Finished(nbrs, m, c) && Rooted(nbrs, m, roots, paths) && RootsFirst(m, roots)
    ensures Consistent(nbrs, m) && Numbered(m) && Spanned(nbrs, m) && FirstSeenOrder(m)
  {
    CompleteNumbered(m, c, roots);
    CompleteSpanned(nbrs, m, c, roots, paths);
    CompleteOrdered(m, c, roots);
  }

  lemma {:induction false} CompleteOrdered(m: seq<nat>, c: nat, roots: seq<nat>)
    requires FirstUnassigned(m) == |m| && c == |roots| + 1
    requires Labels(m, c - 1) && RootsFirst(m, roots)
    ensures FirstSeenOrder(m)
  {
    forall v, j | 0 <= v < |m| && 0 <= j < FirstOf(m, m[v])
      ensures m[j] < m[v]
    {
      assert m[v] != UNASSIGNED;
      RootIsFirst(m, roots, m[v] - 1);
    }
  }

  lemma {:induction false} CompleteNumbered(m: seq<nat>, c: nat, roots: seq<nat>)
    requires FirstUnassigned(m) == |m| && c == |roots| + 1
    requires Labels(m, c - 1) && RootsFirst(m, roots)
    ensures Numbered(m)
  {
    forall v | 0 <= v < |m|
      ensures m[v] != UNASSIGNED && forall x :: 1 <= x < m[v] ==> x in m
    {
      assert m[v] != UNASSIGNED;
      forall x | 1 <= x < m[v]
        ensures x in m
      {
        assert m[roots[x - 1]] == x;
      }
    }
  }

  lemma {:induction false} CompleteSpanned(nbrs: Neighbors, m: seq<nat>, c: nat, roots: seq<nat>, paths: map<nat, seq<nat>>)
    requires FirstUnassigned(m) == |m| && c == |roots| + 1
    requires Rooted(nbrs, m, roots, paths) && RootsFirst(m, roots)
    ensures Spanned(nbrs, m)
  {
    forall v | 0 <= v < |m|
      ensures Reachable(nbrs, FirstOf(m, m[v]), v)
    {
      assert m[v] != UNASSIGNED;
      var i := m[v] - 1;
      RootIsFirst(m, roots, i);
      assert IsPath(nbrs, paths[v], roots[i], v);
    }
  }

  /** The root of label i + 1 is the first node with that label. */
  lemma {:induction false} RootIsFirst(m: seq<nat>, roots: seq<nat>, i: nat)
    requires RootsFirst(m, roots) && i < |roots|
    ensures i + 1 in m && FirstOf(m, i + 1) == roots[i]
  {
    assert m[roots[i]] == i + 1;
    var r := FirstOf(m, i + 1);
    assert r == roots[i];
  }

  /**
   * connectedComponents(numNodes, neighborFn). On success the labels are 1, 2, ...
   * without a gap, every edge stays inside a label, and every node is reached
   * from the first node of its label. The assertion fails exactly when no such
   * labelling exists (an edge leads into an earlier component), which needs a
   * graph that is not undirected.
   */
  method ConnectedComponents(numNodes: nat, neighbors: Neighbors) returns (r: Option<seq<nat>>)
    requires Closed(neighbors, numNodes)
    ensures r.Some? ==> |r.value| == numNodes
    ensures r.Some? ==> Numbered(r.value) && Consistent(neighbors, r.value) && Spanned(neighbors, r.value)
    ensures r.Some? ==> FirstSeenOrder(r.value)
    ensures r.None? ==> !Symmetric(neighbors, numNodes)
    ensures r.None? <==> !Labelable(neighbors, numNodes)
  {
    var marks: seq<nat> := seq(numNodes, _ => UNASSIGNED);
    var count: nat := UNASSIGNED + 1;
    ghost var roots: seq<nat> := [];
    ghost var paths: map<nat, seq<nat>> := map[];
    var root := FirstUnassigned(marks);
    while root < |marks|
      invariant |marks| == numNodes && count == |roots| + 1
      invariant root == FirstUnassigned(marks)
      invariant Labels(marks, count - 1) && Finished(neighbors, marks, count)
      invariant Rooted(neighbors, marks, roots, paths) && RootsFirst(marks, roots)
      decreases Unassigned(marks)
    {
      var ok;
      marks, ok, roots, paths := MarkComponent(marks, count, root, neighbors, roots, paths);
      if !ok {
        return None;
      }
      count := count + 1;
      root := FirstUnassigned(marks);
    }
    Complete(neighbors, marks, count, roots, paths);
    assert |marks| == numNodes && Consistent(neighbors, marks) && Spanned(neighbors, marks);
    r := Some(marks);
  }

  // ---------------------------------------------------------------------------
  // On an undirected graph the labels are exactly the connected components.

  lemma {:induction false} PathSameLabel(nbrs: Neighbors, m: seq<nat>, p: seq<nat>, a: nat, b: nat)
    requires Closed(nbrs, |m|) && Consistent(nbrs, m) && IsPath(nbrs, p, a, b) && a < |m|
    ensures b < |m| && m[b] == m[a]
  {
    PathInside(nbrs, |m|, p, a, b);
    var i := 0;
    while i < |p| - 1
      invariant 0 <= i <= |p| - 1
      invariant m[p[i]] == m[a]
    {
      assert Edge(nbrs, p[i], p[i + 1]);
      var k :| 0 <= k < |nbrs(p[i])| && nbrs(p[i])[k].0 == p[i + 1];
      i := i + 1;
    }
  }

  /** Two nodes share a label exactly when one reaches the other. */
  lemma {:induction false} LabelsAreComponents(nbrs: Neighbors, m: seq<nat>, u: nat, v: nat)
    requires Closed(nbrs, |m|) && Symmetric(nbrs, |m|)
    requires Consistent(nbrs, m) && Spanned(nbrs, m)
    requires u < |m| && v < |m|
    ensures m[u] == m[v] <==> Reachable(nbrs, u, v)
  {
    if Reachable(nbrs, u, v) {
      var p :| IsPath(nbrs, p, u, v);
      PathSameLabel(nbrs, m, p, u, v);
    }
    if m[u] == m[v] {
      var r := FirstOf(m, m[u]);
      assert Reachable(nbrs, r, u) && Reachable(nbrs, r, v);
      var pu :| IsPath(nbrs, pu, r, u);
      var pv :| IsPath(nbrs, pv, r, v);
      PathReverse(nbrs, |m|, pu, r, u);
      var back :| IsPath(nbrs, back, u, r);
      PathConcat(nbrs, back, pv, u, r, v);
    }
  }
}
