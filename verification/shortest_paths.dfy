/**
 * utils::shortestPath: a best-first search from `start` over a neighbour function,
 * with a priority queue of (distance, node) pairs, the map `previous` from each
 * discovered node to the node it was discovered from, and the set `visited` of
 * discovered nodes. A node is marked visited, and given its predecessor, the first
 * time it is seen as a neighbour, never again; the path is then read backwards
 * through `previous` from the target.
 *
 * Nodes are natural numbers (the concept indices of CauseNet). The search only
 * terminates on finite graphs, so every result is stated for a neighbour function
 * that keeps the nodes below some bound n.
 */
module ShortestPaths {
  import opened Graphs


  // ---------------------------------------------------------------------------
  // The priority queue: std::priority_queue over std::greater<tuple<int, Node>>,
  // a min-queue in the lexicographic order of (distance, node).

  type Elem = (int, nat)

  /** a comes out of the queue before b. */
  predicate Before(a: Elem, b: Elem)
  {
    a.0 < b.0 || (a.0 == b.0 && a.1 < b.1)
  }

  /** The position of a least element: nothing in the queue comes before it. */
  function MinIndex(q: seq<Elem>): (m: nat)
    requires q != []
    ensures m < |q|
    ensures forall i :: 0 <= i < |q| ==> !Before(q[i], q[m])
    decreases |q|
  {
    if |q| == 1 then 0
    else
      var m := MinIndex(q[1..]) + 1;
      assert forall i :: 1 <= i < |q| ==> q[i] == q[1..][i - 1];
      if Before(q[m], q[0]) then m else 0
  }

  /** queue.top() */
  function Top(q: seq<Elem>): Elem
    requires q != []
  {
    q[MinIndex(q)]
  }

  /** queue.pop(): the queue without one copy of its top. */
  function Pop(q: seq<Elem>): (r: seq<Elem>)
    requires q != []
    ensures |r| == |q| - 1
  {
    q[..MinIndex(q)] + q[MinIndex(q) + 1..]
  }

  /** Popping removes the top and only the top: every other element stays, and nothing is added. */
  lemma {:induction false} PopKeeps(q: seq<Elem>)
    requires q != []
    ensures forall e :: e in Pop(q) ==> e in q
    ensures forall e :: e in q && e != Top(q) ==> e in Pop(q)
    ensures multiset(Pop(q)) + multiset{Top(q)} == multiset(q)
  {
    var m := MinIndex(q);
    assert q == q[..m] + [q[m]] + q[m + 1..];
    forall e | e in q && e != Top(q)
      ensures e in Pop(q)
    {
      var i :| 0 <= i < |q| && q[i] == e;
      if i < m {
        assert Pop(q)[i] == e;
      } else {
        assert i > m;
        assert Pop(q)[i - 1] == e;
      }
    }
  }

  // ---------------------------------------------------------------------------
  // The state of the search and one round of its loop.

  datatype Search = Search(queue: seq<Elem>, previous: map<nat, nat>, visited: seq<nat>)

  /** queue.emplace(0, start), with nothing discovered yet. */
  function Init(start: nat): Search
  {
    Search([(0, start)], map[], [])
  }

  /**
   * One neighbour (v, w) of `top`, reached at distance `dist` + w: visited.insert
   * reports whether v is new; only a new node is queued and given `top` as its
   * predecessor. The set `visited` is kept as the sequence of its insertions.
   */
  function Visit(s: Search, top: nat, dist: int, nb: (nat, int)): Search
  {
    if nb.0 in s.visited then s
    else Search(s.queue + [(dist + nb.1, nb.0)], s.previous[nb.0 := top], s.visited + [nb.0])
  }

  /** The inner for-loop: the neighbours of `top`, in the order the neighbour function yields them. */
  function Discover(s: Search, top: nat, dist: int, nbs: seq<(nat, int)>): (r: Search)
    ensures |r.queue| >= |s.queue|
    decreases |nbs|
  {
    if nbs == [] then s else Visit(Discover(s, top, dist, nbs[..|nbs| - 1]), top, dist, nbs[|nbs| - 1])
  }

  /**
   * One round of the outer for-loop, on a queue whose top is not the target.
   * As written, the neighbours of the top are queued first and `queue.pop()` runs
   * afterwards, in the loop's increment; `popFirst` pops the top before the
   * neighbours are queued instead.
   */
  function Step(s: Search, nbrs: Neighbors, popFirst: bool): Search
    requires s.queue != []
  {
    var (dist, top) := Top(s.queue);
    if popFirst then Discover(s.(queue := Pop(s.queue)), top, dist, nbrs(top))
    else var d := Discover(s, top, dist, nbrs(top)); d.(queue := Pop(d.queue))
  }

  // ---------------------------------------------------------------------------
  // What every state of the search satisfies.

  predicate Distinct(xs: seq<nat>)
  {
    forall i, j :: 0 <= i < j < |xs| ==> xs[i] != xs[j]
  }

  /** u is the start or has been discovered: the nodes the queue can hold. */
  predicate Known(s: Search, start: nat, u: nat)
  {
    u == start || u in s.visited
  }

  /** The discovered nodes are distinct and below n. */
  predicate Bounded(s: Search, n: nat)
  {
    Distinct(s.visited) && forall i :: 0 <= i < |s.visited| ==> s.visited[i] < n
  }

  /** The discovered nodes are exactly the keys of `previous`. */
  ghost predicate Keys(s: Search)
  {
    forall v :: v in s.previous <==> v in s.visited
  }

  /** The queue holds known nodes only. */
  predicate QueueKnown(s: Search, start: nat)
  {
    forall e :: e in s.queue ==> Known(s, start, e.1)
  }

  /**
   * Each discovered node's predecessor is an edge away and is the start or was
   * discovered before it, so following `previous` reaches the start.
   */
  ghost predicate Linked(s: Search, start: nat, nbrs: Neighbors)
    requires Keys(s)
  {
    forall i :: 0 <= i < |s.visited| ==>
      && (s.previous[s.visited[i]] == start || s.previous[s.visited[i]] in s.visited[..i])
      && Edge(nbrs, s.previous[s.visited[i]], s.visited[i])
  }

  /** The invariant of the search from `start`. */
  ghost predicate Inv(s: Search, start: nat, nbrs: Neighbors, n: nat)
  {
    start < n && Bounded(s, n) && Keys(s) && QueueKnown(s, start) && Linked(s, start, nbrs)
  }

  /** r extends s: what was discovered and queued stays, the newly discovered nodes are queued in order. */
  predicate Grows(s: Search, r: Search)
  {
    && |r.visited| >= |s.visited| && r.visited[..|s.visited|] == s.visited
    && |r.queue| >= |s.queue| && r.queue[..|s.queue|] == s.queue
    && |r.queue| - |s.queue| == |r.visited| - |s.visited|
    && (forall v :: v in s.previous ==> v in r.previous && r.previous[v] == s.previous[v])
    && (forall i :: |s.visited| <= i < |r.visited| ==> r.queue[|s.queue| + i - |s.visited|].1 == r.visited[i])
  }

  lemma {:induction false} GrowsTrans(a: Search, b: Search, c: Search)
    requires Grows(a, b) && Grows(b, c)
    ensures Grows(a, c)
  {
    assert c.visited[..|a.visited|] == c.visited[..|b.visited|][..|a.visited|];
    assert c.queue[..|a.queue|] == c.queue[..|b.queue|][..|a.queue|];
    forall i | |a.visited| <= i < |c.visited|
      ensures c.queue[|a.queue| + i - |a.visited|].1 == c.visited[i]
    {
      if i < |b.visited| {
        assert c.visited[i] == c.visited[..|b.visited|][i];
        assert c.queue[|a.queue| + i - |a.visited|] == c.queue[..|b.queue|][|a.queue| + i - |a.visited|];
      }
    }
  }

  /** Discovering one neighbour only adds, and keeps `previous` keyed by the discovered nodes. */
  lemma {:induction false} VisitGrows(s: Search, top: nat, dist: int, nb: (nat, int))
    requires Keys(s)
    ensures Keys(Visit(s, top, dist, nb)) && Grows(s, Visit(s, top, dist, nb))
    ensures nb.0 in Visit(s, top, dist, nb).visited
  {
    var r := Visit(s, top, dist, nb);
    if nb.0 !in s.visited {
      assert r.visited[..|s.visited|] == s.visited;
      assert r.queue[..|s.queue|] == s.queue;
    } else {
      assert r.visited[..|s.visited|] == s.visited;
      assert r.queue[..|s.queue|] == s.queue;
    }
  }

  /** How the discovery of neighbours changes the state: it only ever adds, and every neighbour ends up discovered. */
  lemma {:induction false} DiscoverGrows(s: Search, top: nat, dist: int, nbs: seq<(nat, int)>)
    requires Keys(s)
    ensures Keys(Discover(s, top, dist, nbs)) && Grows(s, Discover(s, top, dist, nbs))
    ensures forall k :: 0 <= k < |nbs| ==> nbs[k].0 in Discover(s, top, dist, nbs).visited
    decreases |nbs|
  {
    var r := Discover(s, top, dist, nbs);
    if nbs == [] {
      assert r.visited[..|s.visited|] == s.visited;
      assert r.queue[..|s.queue|] == s.queue;
    } else {
      var nbs' := nbs[..|nbs| - 1];
      DiscoverGrows(s, top, dist, nbs');
      var d := Discover(s, top, dist, nbs');
      VisitGrows(d, top, dist, nbs[|nbs| - 1]);
      GrowsTrans(s, d, r);
      forall k | 0 <= k < |nbs| - 1
        ensures nbs[k].0 in r.visited
      {
        assert nbs[k] == nbs'[k];
        assert nbs[k].0 in r.visited[..|d.visited|];
      }
    }
  }

  /** Discovering a new node keeps the queue to known nodes. */
  lemma {:induction false} VisitQueueKnown(s: Search, start: nat, top: nat, dist: int, nb: (nat, int))
    requires QueueKnown(s, start) && nb.0 !in s.visited
    ensures QueueKnown(Visit(s, top, dist, nb), start)
  {
    var r := Visit(s, top, dist, nb);
    forall e | e in r.queue
      ensures Known(r, start, e.1)
    {
      if e in s.queue {
        assert Known(s, start, e.1);
      } else {
        assert e == (dist + nb.1, nb.0);
      }
    }
  }

  /** Discovering a new neighbour v of a known node: v's predecessor is that node, one edge before it. */
  lemma {:induction false} VisitLinked(s: Search, start: nat, nbrs: Neighbors, top: nat, dist: int, nb: (nat, int))
    requires Keys(s) && Linked(s, start, nbrs)
    requires Known(s, start, top) && nb in nbrs(top) && nb.0 !in s.visited
    ensures Keys(Visit(s, top, dist, nb)) && Linked(Visit(s, top, dist, nb), start, nbrs)
  {
    var v := nb.0;
    var r := Visit(s, top, dist, nb);
    assert r.visited == s.visited + [v] && r.previous == s.previous[v := top];
    forall i | 0 <= i < |r.visited|
      ensures && (r.previous[r.visited[i]] == start || r.previous[r.visited[i]] in r.visited[..i])
              && Edge(nbrs, r.previous[r.visited[i]], r.visited[i])
    {
      if i < |s.visited| {
        assert r.visited[i] == s.visited[i] != v && r.visited[..i] == s.visited[..i];
      } else {
        assert r.visited[i] == v && r.visited[..i] == s.visited;
        var k :| 0 <= k < |nbrs(top)| && nbrs(top)[k] == nb;
      }
    }
  }

  /** Discovering one neighbour of a known node keeps the invariant. */
  lemma {:induction false} VisitInv(s: Search, start: nat, nbrs: Neighbors, n: nat, top: nat, dist: int, nb: (nat, int))
    requires Closed(nbrs, n) && Inv(s, start, nbrs, n)
    requires Known(s, start, top) && top < n && nb in nbrs(top)
    ensures Inv(Visit(s, top, dist, nb), start, nbrs, n)
  {
    if nb.0 !in s.visited {
      var r := Visit(s, top, dist, nb);
      var k :| 0 <= k < |nbrs(top)| && nbrs(top)[k] == nb;
      assert nb.0 < n;
      assert r.visited == s.visited + [nb.0];
      VisitQueueKnown(s, start, top, dist, nb);
      VisitLinked(s, start, nbrs, top, dist, nb);
    }
  }

  /** A known node stays known. */
  lemma {:induction false} DiscoverKnown(s: Search, start: nat, top: nat, dist: int, nbs: seq<(nat, int)>, u: nat)
    requires Keys(s) && Known(s, start, u)
    ensures Known(Discover(s, top, dist, nbs), start, u)
  {
    DiscoverGrows(s, top, dist, nbs);
    var d := Discover(s, top, dist, nbs);
    if u != start {
      assert u in d.visited[..|s.visited|];
    }
  }

  /** Discovering neighbours of a known node keeps the invariant. */
  lemma {:induction false} DiscoverInv(s: Search, start: nat, nbrs: Neighbors, n: nat, top: nat, dist: int, nbs: seq<(nat, int)>)
    requires Closed(nbrs, n) && Inv(s, start, nbrs, n)
    requires Known(s, start, top) && top < n && forall k :: 0 <= k < |nbs| ==> nbs[k] in nbrs(top)
    ensures Inv(Discover(s, top, dist, nbs), start, nbrs, n)
    decreases |nbs|
  {
    if nbs != [] {
      var init := nbs[..|nbs| - 1];
      assert forall k :: 0 <= k < |init| ==> init[k] == nbs[k];
      DiscoverInv(s, start, nbrs, n, top, dist, init);
      DiscoverKnown(s, start, top, dist, init, top);
      VisitInv(Discover(s, top, dist, init), start, nbrs, n, top, dist, nbs[|nbs| - 1]);
    }
  }

  /** Removing one element of a sequence of distinct nodes leaves distinct nodes, all different from it. */
  lemma {:induction false} DistinctRemove(xs: seq<nat>, i: nat)
    requires Distinct(xs) && i < |xs|
    ensures var ys := xs[..i] + xs[i + 1..];
            Distinct(ys) && forall j :: 0 <= j < |ys| ==> ys[j] != xs[i] && ys[j] in xs
  {
    var ys := xs[..i] + xs[i + 1..];
    forall j | 0 <= j < |ys|
      ensures ys[j] == xs[if j < i then j else j + 1]
    {
    }
  }

  /** At most n distinct nodes lie below n (the pigeonhole principle). */
  lemma {:induction false} DistinctBound(xs: seq<nat>, n: nat)
    requires Distinct(xs) && forall j :: 0 <= j < |xs| ==> xs[j] < n
    ensures |xs| <= n
    decreases n
  {
    ghost var first := if xs == [] then 0 else xs[0];
    if n > 0 {
      if i :| 0 <= i < |xs| && xs[i] == n - 1 {
        DistinctRemove(xs, i);
        var ys := xs[..i] + xs[i + 1..];
        forall j | 0 <= j < |ys|
          ensures ys[j] < n - 1
        {
          var k :| 0 <= k < |xs| && xs[k] == ys[j];
        }
        DistinctBound(ys, n - 1);
      } else {
        DistinctBound(xs, n - 1);
      }
    }
  }

  /** The search discovers each of the n nodes at most once. */
  lemma {:induction false} VisitedBound(s: Search, n: nat)
    requires Bounded(s, n)
    ensures |s.visited| <= n
  {
    DistinctBound(s.visited, n);
  }

  /**
   * One round keeps the invariant, and makes progress: it discovers a node, or
   * it discovers none and the queue shrinks by the popped top.
   */
  lemma {:induction false} StepInv(s: Search, start: nat, nbrs: Neighbors, n: nat, popFirst: bool)
    requires Closed(nbrs, n) && Inv(s, start, nbrs, n) && s.queue != []
    ensures Inv(Step(s, nbrs, popFirst), start, nbrs, n)
    ensures var r := Step(s, nbrs, popFirst);
            |r.visited| > |s.visited| || (|r.visited| == |s.visited| && |r.queue| < |s.queue|)
  {
    var (dist, top) := Top(s.queue);
    assert Top(s.queue) in s.queue;
    assert Known(s, start, top);
    assert top < n by {
      if top != start {
        var i :| 0 <= i < |s.visited| && s.visited[i] == top;
      }
    }
    var l := nbrs(top);
    assert l[..|l|] == l;
    PopKeeps(s.queue);
    if popFirst {
      var s0 := s.(queue := Pop(s.queue));
      assert QueueKnown(s0, start);
      DiscoverInv(s0, start, nbrs, n, top, dist, l);
      DiscoverGrows(s0, top, dist, l);
    } else {
      var d := Discover(s, top, dist, l);
      DiscoverInv(s, start, nbrs, n, top, dist, l);
      DiscoverGrows(s, top, dist, l);
      PopKeeps(d.queue);
      assert QueueKnown(d.(queue := Pop(d.queue)), start) by {
        assert QueueKnown(d, start);
      }
    }
  }

  /** The search starts in a state of the invariant. */
  lemma {:induction false} InitInv(start: nat, nbrs: Neighbors, n: nat)
    requires start < n
    ensures Inv(Init(start), start, nbrs, n)
  {
  }

  /** The outer for-loop: rounds until the queue is empty or its top is the target. */
  function Run(s: Search, start: nat, target: nat, nbrs: Neighbors, n: nat, popFirst: bool): (r: Search)
    requires Closed(nbrs, n) && Inv(s, start, nbrs, n)
    ensures Inv(r, start, nbrs, n)
    ensures r.queue == [] || Top(r.queue).1 == target
    decreases n - |s.visited|, |s.queue|
  {
    if s.queue == [] || Top(s.queue).1 == target then s
    else
      StepInv(s, start, nbrs, n, popFirst);
      VisitedBound(Step(s, nbrs, popFirst), n);
      Run(Step(s, nbrs, popFirst), start, target, nbrs, n, popFirst)
  }

  // ---------------------------------------------------------------------------
  // Reading the path back through `previous`.

  /** The first position of x in xs. */
  function IndexOf(xs: seq<nat>, x: nat): (r: nat)
    requires x in xs
    ensures r < |xs| && xs[r] == x && forall j :: 0 <= j < r ==> xs[j] != x
  {
    if xs[0] == x then 0 else 1 + IndexOf(xs[1..], x)
  }

  /** How far a known node is from the start along `previous`: the start is 0, a discovered node one more than its position. */
  function Rank(s: Search, start: nat, v: nat): nat
    requires Known(s, start, v)
  {
    if v == start then 0 else IndexOf(s.visited, v) + 1
  }

  /** The predecessor of a discovered node is known and closer to the start, and an edge leads from it to the node. */
  lemma {:induction false} PreviousCloser(s: Search, start: nat, nbrs: Neighbors, n: nat, v: nat)
    requires Inv(s, start, nbrs, n) && v in s.visited && v != start
    ensures v in s.previous && Known(s, start, s.previous[v])
    ensures Rank(s, start, s.previous[v]) < Rank(s, start, v)
    ensures Edge(nbrs, s.previous[v], v)
  {
    var i := IndexOf(s.visited, v);
    var p := s.previous[v];
    assert s.visited[i] == v;
    assert (p == start || p in s.visited[..i]) && Edge(nbrs, p, v);
    if p != start {
      assert p in s.visited[..i];
      var j :| 0 <= j < i && s.visited[j] == p;
      assert IndexOf(s.visited, p) <= j;
    }
  }

  /** The nodes from the start to v, following `previous` backwards from v. */
  ghost function PathTo(s: Search, start: nat, nbrs: Neighbors, n: nat, v: nat): (r: seq<nat>)
    requires Inv(s, start, nbrs, n) && Known(s, start, v)
    ensures IsPath(nbrs, r, start, v)
    decreases Rank(s, start, v)
  {
    if v == start then [start]
    else
      PreviousCloser(s, start, nbrs, n, v);
      var p := PathTo(s, start, nbrs, n, s.previous[v]);
      assert forall i :: 0 <= i < |p| ==> (p + [v])[i] == p[i];
      p + [v]
  }

  /** std::reverse */
  function Reverse(xs: seq<nat>): (r: seq<nat>)
    ensures |r| == |xs| && forall i :: 0 <= i < |xs| ==> r[i] == xs[|xs| - 1 - i]
  {
    if xs == [] then [] else [xs[|xs| - 1]] + Reverse(xs[..|xs| - 1])
  }

  /**
   * The result of shortestPath from start to target (start != target): empty when
   * the queue ran dry, otherwise the path read back from the target. Any path it
   * returns is a path of the graph from start to target.
   */
  ghost function ShortestPathOf(start: nat, target: nat, nbrs: Neighbors, n: nat, popFirst: bool): (r: seq<nat>)
    requires Closed(nbrs, n) && start < n && start != target
    ensures r != [] ==> IsPath(nbrs, r, start, target)
  {
    var s := Run(Init(start), start, target, nbrs, n, popFirst);
    if s.queue == [] then []
    else
      assert Top(s.queue) in s.queue;
      PathTo(s, start, nbrs, n, target)
  }

  // ---------------------------------------------------------------------------
  // Completeness of the search that pops before it queues.

  /** Some element of the queue holds u. */
  predicate Pending(q: seq<Elem>, u: nat)
  {
    exists i :: 0 <= i < |q| && q[i].1 == u
  }

  /** Every neighbour of u is known. */
  predicate Expanded(s: Search, start: nat, nbrs: Neighbors, u: nat)
  {
    forall k :: 0 <= k < |nbrs(u)| ==> Known(s, start, nbrs(u)[k].0)
  }

  /**
   * The invariant of the corrected search: a known node that is no longer queued
   * has had all its neighbours discovered, and a discovered target is still queued.
   */
  ghost predicate Settled(s: Search, start: nat, target: nat, nbrs: Neighbors)
  {
    && (forall u :: Known(s, start, u) && !Pending(s.queue, u) ==> Expanded(s, start, nbrs, u))
    && (target in s.visited ==> Pending(s.queue, target))
  }

  lemma {:induction false} PendingPop(q: seq<Elem>, u: nat)
    requires q != [] && Pending(q, u) && u != Top(q).1
    ensures Pending(Pop(q), u)
  {
    var i :| 0 <= i < |q| && q[i].1 == u;
    PopKeeps(q);
    assert q[i] in Pop(q);
    var j :| 0 <= j < |Pop(q)| && Pop(q)[j] == q[i];
  }

  lemma {:induction false} PendingGrows(s: Search, r: Search, u: nat)
    requires Grows(s, r) && Pending(s.queue, u)
    ensures Pending(r.queue, u)
  {
    var i :| 0 <= i < |s.queue| && s.queue[i].1 == u;
    assert r.queue[i] == r.queue[..|s.queue|][i];
  }

  lemma {:induction false} KnownGrows(s: Search, r: Search, start: nat, u: nat)
    requires Grows(s, r) && Known(s, start, u)
    ensures Known(r, start, u)
  {
    if u != start {
      assert u in r.visited[..|s.visited|];
    }
  }

  /** A node discovered in this round is queued. */
  lemma {:induction false} NewPending(s: Search, r: Search, u: nat)
    requires Grows(s, r) && u in r.visited && u !in s.visited
    ensures Pending(r.queue, u)
  {
    forall j | 0 <= j < |s.visited|
      ensures r.visited[j] != u
    {
      assert r.visited[j] == r.visited[..|s.visited|][j];
    }
    var i :| 0 <= i < |r.visited| && r.visited[i] == u;
    assert r.queue[|s.queue| + i - |s.visited|].1 == u;
  }

  /** A round of the corrected search, on a queue whose top is not the target, keeps it settled. */
  lemma {:induction false} SettledStep(s: Search, start: nat, target: nat, nbrs: Neighbors, n: nat)
    requires Closed(nbrs, n) && Inv(s, start, nbrs, n) && Settled(s, start, target, nbrs)
    requires s.queue != [] && Top(s.queue).1 != target
    ensures Settled(Step(s, nbrs, true), start, target, nbrs)
  {
    var (dist, top) := Top(s.queue);
    var s0 := s.(queue := Pop(s.queue));
    var r := Step(s, nbrs, true);
    DiscoverGrows(s0, top, dist, nbrs(top));
    assert Grows(s0, r);
    forall u | Known(r, start, u) && !Pending(r.queue, u)
      ensures Expanded(r, start, nbrs, u)
    {
      if u in r.visited && u !in s.visited {
        NewPending(s0, r, u);
      } else if u != top {
        if Pending(s.queue, u) {
          PendingPop(s.queue, u);
          PendingGrows(s0, r, u);
        }
        assert Expanded(s, start, nbrs, u);
        forall k | 0 <= k < |nbrs(u)|
          ensures Known(r, start, nbrs(u)[k].0)
        {
          KnownGrows(s0, r, start, nbrs(u)[k].0);
        }
      }
    }
    if target in r.visited {
      if target in s.visited {
        PendingPop(s.queue, target);
        PendingGrows(s0, r, target);
      } else {
        NewPending(s0, r, target);
      }
    }
  }

  /** The corrected search stays settled to its end. */
  lemma {:induction false} RunSettled(s: Search, start: nat, target: nat, nbrs: Neighbors, n: nat)
    requires Closed(nbrs, n) && Inv(s, start, nbrs, n) && Settled(s, start, target, nbrs)
    ensures Settled(Run(s, start, target, nbrs, n, true), start, target, nbrs)
    decreases n - |s.visited|, |s.queue|
  {
    if !(s.queue == [] || Top(s.queue).1 == target) {
      StepInv(s, start, nbrs, n, true);
      VisitedBound(Step(s, nbrs, true), n);
      SettledStep(s, start, target, nbrs, n);
      RunSettled(Step(s, nbrs, true), start, target, nbrs, n);
    }
  }

  /** When nothing is queued, every known node has been expanded, so every node a path from the start reaches is known. */
  lemma {:induction false} PathKnown(s: Search, start: nat, target: nat, nbrs: Neighbors, p: seq<nat>, b: nat, i: nat)
    requires Settled(s, start, target, nbrs) && s.queue == []
    requires IsPath(nbrs, p, start, b) && i < |p|
    ensures Known(s, start, p[i])
  {
    if i > 0 {
      PathKnown(s, start, target, nbrs, p, b, i - 1);
      assert Edge(nbrs, p[i - 1], p[i]);
      var k :| 0 <= k < |nbrs(p[i - 1])| && nbrs(p[i - 1])[k].0 == p[i];
      assert !Pending(s.queue, p[i - 1]);
      assert Expanded(s, start, nbrs, p[i - 1]);
    }
  }

  /**
   * The corrected search finds a path exactly when there is one: it answers with
   * the empty path only when the target cannot be reached from the start.
   */
  lemma {:induction false} CorrectedComplete(start: nat, target: nat, nbrs: Neighbors, n: nat)
    requires Closed(nbrs, n) && start < n && start != target
    ensures ShortestPathOf(start, target, nbrs, n, true) != [] <==> exists p :: IsPath(nbrs, p, start, target)
  {
    var r := ShortestPathOf(start, target, nbrs, n, true);
    if r != [] {
      assert IsPath(nbrs, r, start, target);
    } else {
      var s0 := Init(start);
      assert Settled(s0, start, target, nbrs) by {
        assert Pending(s0.queue, start) by {
          assert s0.queue[0].1 == start;
        }
      }
      RunSettled(s0, start, target, nbrs, n);
      var s := Run(s0, start, target, nbrs, n, true);
      assert s.queue == [];
      if p :| IsPath(nbrs, p, start, target) {
        PathKnown(s, start, target, nbrs, p, target, |p| - 1);
        assert false;
      }
    }
  }

  // ---------------------------------------------------------------------------
  // Two small graphs, run by hand.

  /** A round that does not stop the search hands on to the next one. */
  lemma {:induction false} RunRound(s: Search, start: nat, target: nat, nbrs: Neighbors, n: nat, popFirst: bool)
    requires Closed(nbrs, n) && Inv(s, start, nbrs, n) && s.queue != [] && Top(s.queue).1 != target
    ensures Inv(Step(s, nbrs, popFirst), start, nbrs, n)
    ensures Run(s, start, target, nbrs, n, popFirst) == Run(Step(s, nbrs, popFirst), start, target, nbrs, n, popFirst)
  {
    StepInv(s, start, nbrs, n, popFirst);
  }

  lemma {:induction false} RunStops(s: Search, start: nat, target: nat, nbrs: Neighbors, n: nat, popFirst: bool)
    requires Closed(nbrs, n) && Inv(s, start, nbrs, n) && (s.queue == [] || Top(s.queue).1 == target)
    ensures Run(s, start, target, nbrs, n, popFirst) == s
  {
  }

  lemma {:induction false} PathBack(s: Search, start: nat, nbrs: Neighbors, n: nat, v: nat)
    requires Inv(s, start, nbrs, n) && v in s.visited && v != start
    ensures Known(s, start, s.previous[v])
    ensures PathTo(s, start, nbrs, n, v) == PathTo(s, start, nbrs, n, s.previous[v]) + [v]
  {
    PreviousCloser(s, start, nbrs, n, v);
  }

  /** A single edge 1 -> 0 of weight 0. */
  function OneEdge(): Neighbors
  {
    u => if u == 1 then [(0, 0)] else []
  }

  lemma {:induction false} OneEdgeGraph()
    ensures Closed(OneEdge(), 2)
    ensures IsPath(OneEdge(), [1, 0], 1, 0)
  {
    var nbrs := OneEdge();
    forall u, k | 0 <= u < 2 && 0 <= k < |nbrs(u)|
      ensures nbrs(u)[k].0 < 2
    {
    }
    assert Edge(nbrs, 1, 0) by {
      assert nbrs(1)[0].0 == 0;
    }
  }

  lemma {:induction false} OneEdgeRounds()
    ensures Step(Init(1), OneEdge(), false) == Search([(0, 1)], map[0 := 1], [0])
    ensures Step(Search([(0, 1)], map[0 := 1], [0]), OneEdge(), false) == Search([], map[0 := 1], [0])
    ensures Step(Init(1), OneEdge(), true) == Search([(0, 0)], map[0 := 1], [0])
  {
    var l: seq<(nat, int)> := OneEdge()(1);
    assert l == [(0, 0)] && l[..0] == [];
    var s0 := Init(1);
    assert MinIndex(s0.queue) == 0;
    assert Discover(s0, 1, 0, l) == Search([(0, 1), (0, 0)], map[0 := 1], [0]);
    assert MinIndex([(0, 1), (0, 0)]) == 1;
    var s1 := Search([(0, 1)], map[0 := 1], [0]);
    assert MinIndex(s1.queue) == 0;
    assert Discover(s1, 1, 0, l) == s1;
    assert Discover(Search([], map[], []), 1, 0, l) == Search([(0, 0)], map[0 := 1], [0]);
  }

  /**
   * As written, the search from 1 to 0 over the single edge 1 -> 0 of weight 0
   * answers with the empty path: (0, 0) is queued before the pop, comes before
   * (0, 1), and is the entry the pop removes.
   */
  lemma {:induction false} AsWrittenMissesPath()
    ensures Closed(OneEdge(), 2)
    ensures IsPath(OneEdge(), [1, 0], 1, 0)
    ensures ShortestPathOf(1, 0, OneEdge(), 2, false) == []
  {
    var nbrs := OneEdge();
    OneEdgeGraph();
    OneEdgeRounds();
    InitInv(1, nbrs, 2);
    var s0 := Init(1);
    var s1 := Search([(0, 1)], map[0 := 1], [0]);
    var s2 := Search([], map[0 := 1], [0]);
    assert Top(s0.queue) == (0, 1);
    RunRound(s0, 1, 0, nbrs, 2, false);
    assert Top(s1.queue) == (0, 1);
    RunRound(s1, 1, 0, nbrs, 2, false);
    RunStops(s2, 1, 0, nbrs, 2, false);
  }

  /** The corrected search finds the path 1, 0 on the same graph. */
  lemma {:induction false} CorrectedFindsPath()
    ensures Closed(OneEdge(), 2)
    ensures ShortestPathOf(1, 0, OneEdge(), 2, true) == [1, 0]
  {
    var nbrs := OneEdge();
    OneEdgeGraph();
    OneEdgeRounds();
    InitInv(1, nbrs, 2);
    var s0 := Init(1);
    var s1 := Search([(0, 0)], map[0 := 1], [0]);
    assert Top(s0.queue) == (0, 1);
    RunRound(s0, 1, 0, nbrs, 2, true);
    assert Top(s1.queue) == (0, 0);
    RunStops(s1, 1, 0, nbrs, 2, true);
    PathBack(s1, 1, nbrs, 2, 0);
  }

  /** The edges 0 -> 1 and 1 -> 2 of weight 1 and 0 -> 2 of weight 5. */
  function Detour(): Neighbors
  {
    u => if u == 0 then [(1, 1), (2, 5)] else if u == 1 then [(2, 1)] else []
  }

  lemma {:induction false} DetourGraph()
    ensures Closed(Detour(), 3)
    ensures IsPath(Detour(), [0, 1, 2], 0, 2)
  {
    var nbrs := Detour();
    forall u, k | 0 <= u < 3 && 0 <= k < |nbrs(u)|
      ensures nbrs(u)[k].0 < 3
    {
    }
    assert Edge(nbrs, 0, 1) by {
      assert nbrs(0)[0].0 == 1;
    }
    assert Edge(nbrs, 1, 2) by {
      assert nbrs(1)[0].0 == 2;
    }
  }

  lemma {:induction false} DetourRounds()
    ensures Step(Init(0), Detour(), false) == Search([(1, 1), (5, 2)], map[1 := 0, 2 := 0], [1, 2])
    ensures Step(Search([(1, 1), (5, 2)], map[1 := 0, 2 := 0], [1, 2]), Detour(), false) == Search([(5, 2)], map[1 := 0, 2 := 0], [1, 2])
  {
    var s0 := Init(0);
    assert MinIndex(s0.queue) == 0;
    var l: seq<(nat, int)> := Detour()(0);
    var first: seq<(nat, int)> := l[..1];
    assert l == [(1, 1), (2, 5)] && first == [(1, 1)] && first[..0] == [];
    assert Discover(s0, 0, 0, first) == Search([(0, 0), (1, 1)], map[1 := 0], [1]);
    assert Discover(s0, 0, 0, l) == Search([(0, 0), (1, 1), (5, 2)], map[1 := 0, 2 := 0], [1, 2]);
    assert MinIndex([(0, 0), (1, 1), (5, 2)]) == 0;
    var s1 := Search([(1, 1), (5, 2)], map[1 := 0, 2 := 0], [1, 2]);
    assert MinIndex(s1.queue) == 0;
    var l1: seq<(nat, int)> := Detour()(1);
    assert l1 == [(2, 1)] && l1[..0] == [];
    assert Discover(s1, 1, 1, l1) == s1;
  }

  /**
   * A node keeps the predecessor it was first discovered from: from 0 to 2 over
   * Detour the search answers 0, 2 (weight 5), not 0, 1, 2 (weight 2), because 2
   * is discovered as a neighbour of 0 before 1 is expanded.
   */
  lemma {:induction false} DetourRun()
    ensures Closed(Detour(), 3)
    ensures Inv(Search([(5, 2)], map[1 := 0, 2 := 0], [1, 2]), 0, Detour(), 3)
    ensures Run(Init(0), 0, 2, Detour(), 3, false) == Search([(5, 2)], map[1 := 0, 2 := 0], [1, 2])
  {
    var nbrs := Detour();
    DetourGraph();
    DetourRounds();
    InitInv(0, nbrs, 3);
    var s0 := Init(0);
    var s1 := Search([(1, 1), (5, 2)], map[1 := 0, 2 := 0], [1, 2]);
    var s2 := Search([(5, 2)], map[1 := 0, 2 := 0], [1, 2]);
    assert Top(s0.queue) == (0, 0);
    RunRound(s0, 0, 2, nbrs, 3, false);
    assert Top(s1.queue) == (1, 1);
    RunRound(s1, 0, 2, nbrs, 3, false);
    assert Top(s2.queue) == (5, 2);
    RunStops(s2, 0, 2, nbrs, 3, false);
  }

  lemma {:induction false} FirstDiscoveryWins()
    ensures Closed(Detour(), 3)
    ensures IsPath(Detour(), [0, 1, 2], 0, 2)
    ensures ShortestPathOf(0, 2, Detour(), 3, false) == [0, 2]
  {
    DetourGraph();
    DetourRun();
    var s2 := Search([(5, 2)], map[1 := 0, 2 := 0], [1, 2]);
    PathBack(s2, 0, Detour(), 3, 2);
  }

  // ---------------------------------------------------------------------------
  // The search as the function runs it, on its three local containers.

  /** `previous[v]` (std::map::operator[] yields a default 0 for a missing key). */
  function Prev(previous: map<nat, nat>, v: nat): nat
  {
    if v in previous then previous[v] else 0
  }

  /** The inner for-loop over the neighbours of `top`. */
  method DiscoverNeighbors(queue: seq<Elem>, previous: map<nat, nat>, visited: seq<nat>, top: nat, dist: int, nbs: seq<(nat, int)>)
    returns (queue': seq<Elem>, previous': map<nat, nat>, visited': seq<nat>)
    ensures Search(queue', previous', visited') == Discover(Search(queue, previous, visited), top, dist, nbs)
  {
    queue', previous', visited' := queue, previous, visited;
    for k := 0 to |nbs|
      invariant Search(queue', previous', visited') == Discover(Search(queue, previous, visited), top, dist, nbs[..k])
    {
      assert nbs[..k + 1][..k] == nbs[..k];
      var (neighbor, weight) := nbs[k];
      var newNode := neighbor !in visited';
      if newNode {
        visited' := visited' + [neighbor];
        queue' := queue' + [(dist + weight, neighbor)];
        previous' := previous'[neighbor := top];
      }
    }
    assert nbs[..|nbs|] == nbs;
  }

  /** One more step back through `previous` keeps the path read so far, in reverse, a suffix of the path to the target. */
  lemma {:induction false} TraceStep(s: Search, start: nat, nbrs: Neighbors, n: nat, target: nat, path: seq<nat>)
    requires Inv(s, start, nbrs, n) && Known(s, start, target)
    requires |path| >= 1 && path[|path| - 1] != start && Known(s, start, path[|path| - 1])
    requires PathTo(s, start, nbrs, n, target) == PathTo(s, start, nbrs, n, path[|path| - 1]) + Reverse(path[..|path| - 1])
    ensures var last := path[|path| - 1];
            var path' := path + [Prev(s.previous, last)];
            && Known(s, start, path'[|path'| - 1])
            && Rank(s, start, path'[|path'| - 1]) < Rank(s, start, last)
            && PathTo(s, start, nbrs, n, target) == PathTo(s, start, nbrs, n, path'[|path'| - 1]) + Reverse(path'[..|path'| - 1])
  {
    var last := path[|path| - 1];
    PreviousCloser(s, start, nbrs, n, last);
    var p := s.previous[last];
    var path' := path + [p];
    assert path'[..|path'| - 1] == path && path'[|path'| - 1] == p;
    assert PathTo(s, start, nbrs, n, last) == PathTo(s, start, nbrs, n, p) + [last];
    assert Reverse(path) == [last] + Reverse(path[..|path| - 1]);
    assert (PathTo(s, start, nbrs, n, p) + [last]) + Reverse(path[..|path| - 1])
        == PathTo(s, start, nbrs, n, p) + ([last] + Reverse(path[..|path| - 1]));
  }

  /** Once the start is reached, the reversed sequence is the whole path. */
  lemma {:induction false} TraceDone(s: Search, start: nat, nbrs: Neighbors, n: nat, target: nat, path: seq<nat>)
    requires Inv(s, start, nbrs, n) && Known(s, start, target)
    requires |path| >= 2 && path[|path| - 1] == start
    requires PathTo(s, start, nbrs, n, target) == PathTo(s, start, nbrs, n, path[|path| - 1]) + Reverse(path[..|path| - 1])
    ensures Reverse(path) == PathTo(s, start, nbrs, n, target)
  {
    assert PathTo(s, start, nbrs, n, start) == [start];
  }

  /** The do-while loop and the reversal: the path from the start to the target through `previous`. */
  method TracePath(previous: map<nat, nat>, start: nat, target: nat, ghost s: Search, ghost nbrs: Neighbors, ghost n: nat)
    returns (path: seq<nat>)
    requires Inv(s, start, nbrs, n) && s.previous == previous && target in s.visited && target != start
    ensures path == PathTo(s, start, nbrs, n, target)
  {
    path := [target];
    assert [target][..0] == [] && PathTo(s, start, nbrs, n, target) + [] == PathTo(s, start, nbrs, n, target);
    TraceStep(s, start, nbrs, n, target, path);
    path := path + [Prev(previous, path[|path| - 1])];
    while path[|path| - 1] != start
      invariant |path| >= 2 && Known(s, start, path[|path| - 1])
      invariant PathTo(s, start, nbrs, n, target) == PathTo(s, start, nbrs, n, path[|path| - 1]) + Reverse(path[..|path| - 1])
      decreases Rank(s, start, path[|path| - 1])
    {
      TraceStep(s, start, nbrs, n, target, path);
      path := path + [Prev(previous, path[|path| - 1])];
    }
    TraceDone(s, start, nbrs, n, target, path);
    path := Reverse(path);
  }

  /**
   * utils::shortestPath as written, for start != target: the best-first search,
   * then the path read back from the target, or the empty path when the queue
   * runs dry.
   */
  method ShortestPath(start: nat, target: nat, neighbors: Neighbors, ghost n: nat) returns (path: seq<nat>)
    requires Closed(neighbors, n) && start < n && start != target
    ensures path == ShortestPathOf(start, target, neighbors, n, false)
  {
    var queue: seq<Elem> := [(0, start)];
    var previous: map<nat, nat> := map[];
    var visited: seq<nat> := [];
    ghost var s0 := Init(start);
    while !(queue == [] || Top(queue).1 == target)
      invariant Inv(Search(queue, previous, visited), start, neighbors, n)
      invariant Run(Search(queue, previous, visited), start, target, neighbors, n, false) == Run(s0, start, target, neighbors, n, false)
      invariant |visited| <= n
      decreases n - |visited|, |queue|
    {
      ghost var cur := Search(queue, previous, visited);
      var (dist, top) := Top(queue);
      queue, previous, visited := DiscoverNeighbors(queue, previous, visited, top, dist, neighbors(top));
      queue := Pop(queue);
      assert Search(queue, previous, visited) == Step(cur, neighbors, false);
      StepInv(cur, start, neighbors, n, false);
      VisitedBound(Search(queue, previous, visited), n);
    }
    if queue == [] {
      return [];
    }
    ghost var s := Search(queue, previous, visited);
    assert Top(queue) in queue;
    path := TracePath(previous, start, target, s, neighbors, n);
  }

  /** shortestPath with the top popped before its neighbours are queued. */
  method ShortestPathCorrected(start: nat, target: nat, neighbors: Neighbors, ghost n: nat) returns (path: seq<nat>)
    requires Closed(neighbors, n) && start < n && start != target
    ensures path == ShortestPathOf(start, target, neighbors, n, true)
  {
    var queue: seq<Elem> := [(0, start)];
    var previous: map<nat, nat> := map[];
    var visited: seq<nat> := [];
    ghost var s0 := Init(start);
    while !(queue == [] || Top(queue).1 == target)
      invariant Inv(Search(queue, previous, visited), start, neighbors, n)
      invariant Run(Search(queue, previous, visited), start, target, neighbors, n, true) == Run(s0, start, target, neighbors, n, true)
      invariant |visited| <= n
      decreases n - |visited|, |queue|
    {
      ghost var cur := Search(queue, previous, visited);
      var (dist, top) := Top(queue);
      queue := Pop(queue);
      queue, previous, visited := DiscoverNeighbors(queue, previous, visited, top, dist, neighbors(top));
      assert Search(queue, previous, visited) == Step(cur, neighbors, true);
      StepInv(cur, start, neighbors, n, true);
      VisitedBound(Search(queue, previous, visited), n);
    }
    if queue == [] {
      return [];
    }
    ghost var s := Search(queue, previous, visited);
    assert Top(queue) in queue;
    path := TracePath(previous, start, target, s, neighbors, n);
  }
}
