/**
  The bookkeeping of the breadth-first search of find_connection_path in
  facebook_connections.py: what holds of the queue, the visited set and the
  levels before each dequeue and while a node is expanded, and why a search
  that stops without a path has missed no short enough walk.
 */
module ConnectionSearch {
  import opened SocialGraph

  /** The nodes of the entries of a search queue. */
  ghost function Queued<N(!new)>(queue: seq<(N, seq<N>)>): set<N>
  {
    set k | 0 <= k < |queue| :: queue[k].0
  }

  lemma QueuedPop<N(!new)>(queue: seq<(N, seq<N>)>)
    requires queue != []
    ensures Queued(queue) == {queue[0].0} + Queued(queue[1..])
  {
    forall y | y in Queued(queue)
      ensures y == queue[0].0 || y in Queued(queue[1..])
    {
      var k :| 0 <= k < |queue| && queue[k].0 == y;
      if k > 0 {
        assert queue[1..][k - 1].0 == y;
      }
    }
    forall y | y in Queued(queue[1..])
      ensures y in Queued(queue)
    {
      var k :| 0 <= k < |queue[1..]| && queue[1..][k].0 == y;
      assert queue[k + 1].0 == y;
    }
  }

  lemma QueuedAppend<N(!new)>(queue: seq<(N, seq<N>)>, e: (N, seq<N>))
    ensures Queued(queue + [e]) == Queued(queue) + {e.0}
  {
    var q := queue + [e];
    assert q[|queue|].0 == e.0;
    forall y | y in Queued(queue)
      ensures y in Queued(q)
    {
      var k :| 0 <= k < |queue| && queue[k].0 == y;
      assert q[k].0 == y;
    }
  }

  /**
    A queue entry records a node, the distinct walk from `start` by which it was
    reached (all of whose nodes are visited) and, as its level, the walk's length.
   */
  ghost predicate EntryOk<N(!new)>(g: Adjacency<N>, start: N, visited: set<N>, level: map<N, nat>,
                             e: (N, seq<N>))
  {
    && e.0 in visited && e.0 in level && level[e.0] == |e.1|
    && (e.0 in g || e.0 == start)
    && |e.1| >= 1 && e.1[0] == start && e.1[|e.1| - 1] == e.0
    && IsWalk(g, e.1) && Distinct(e.1)
    && (forall i :: 0 <= i < |e.1| ==> e.1[i] in visited)
  }

  /** An entry stays well formed when a new node joins the visited set. */
  lemma EntryOkGrow<N(!new)>(g: Adjacency<N>, start: N, visited: set<N>, level: map<N, nat>,
                             e: (N, seq<N>), y: N, l: nat)
    requires level.Keys == visited && y !in visited
    requires EntryOk(g, start, visited, level, e)
    ensures EntryOk(g, start, visited + {y}, level[y := l], e)
  {
  }

  /** Extending the walk of an entry by a new neighbour gives a well-formed entry. */
  lemma EntryOkExtend<N(!new)>(g: Adjacency<N>, start: N, visited: set<N>, level: map<N, nat>,
                               e: (N, seq<N>), y: N)
    requires level.Keys == visited && y !in visited
    requires EntryOk(g, start, visited, level, e) && e.0 in g && y in g[e.0] && y in g
    ensures EntryOk(g, start, visited + {y}, level[y := |e.1| + 1], (y, e.1 + [y]))
  {
    var p := e.1 + [y];
    assert forall i :: 0 <= i < |e.1| ==> p[i] == e.1[i];
    assert IsWalk(g, p);
  }

  /**
    Node `z` was expanded: every neighbour has a level at most one above its own
    and none of them is the target.
   */
  ghost predicate Explored<N(!new)>(g: Adjacency<N>, z: N, level: map<N, nat>, target: N)
    requires z in level
  {
    z in g && forall y :: y in g[z] ==> y in level && level[y] <= level[z] + 1 && y != target
  }

  /**
    Along a walk from `start` to `target` with at most `bound` nodes, every node
    but the last was expanded, when all nodes outside `expanded` have level
    `bound` or more.
   */
  lemma {:induction false} ExpandedAlongWalk<N(!new)>(g: Adjacency<N>, start: N, target: N,
      expanded: set<N>, level: map<N, nat>, bound: int, q: seq<N>, i: nat)
    requires start in level && level[start] == 1
    requires expanded <= level.Keys
    requires forall z :: z in expanded ==> Explored(g, z, level, target)
    requires forall y :: y in level && y !in expanded ==> level[y] >= bound
    requires WalkBetween(g, q, start, target) && |q| <= bound
    requires i <= |q| - 2
    ensures q[i] in expanded && level[q[i]] <= i + 1
    ensures q[i + 1] in g[q[i]]
    decreases i
  {
    if i > 0 {
      ExpandedAlongWalk(g, start, target, expanded, level, bound, q, i - 1);
      assert q[i] in g[q[i - 1]];
    }
  }

  /**
    When every node outside `expanded` has level `bound` or more, every walk
    from `start` to `target` has more than `bound` nodes.
   */
  lemma NoWalkWithin<N(!new)>(g: Adjacency<N>, start: N, target: N,
      expanded: set<N>, level: map<N, nat>, bound: int, q: seq<N>)
    requires start in level && level[start] == 1
    requires expanded <= level.Keys
    requires forall z :: z in expanded ==> Explored(g, z, level, target)
    requires forall y :: y in level && y !in expanded ==> level[y] >= bound
    requires WalkBetween(g, q, start, target)
    ensures |q| > bound
  {
    if |q| <= bound {
      var i := |q| - 2;
      ExpandedAlongWalk(g, start, target, expanded, level, bound, q, i);
      assert false;
    }
  }

  /** The state of the search before each dequeue. */
  ghost predicate Frontier<N(!new)>(g: Adjacency<N>, start: N, target: N, queue: seq<(N, seq<N>)>,
                                    visited: set<N>, expanded: set<N>, level: map<N, nat>)
  {
    && start in visited && level.Keys == visited && level[start] == 1
    && expanded <= visited
    && (forall y :: y in visited ==> y in expanded || y in Queued(queue))
    && (forall k :: 0 <= k < |queue| ==> EntryOk(g, start, visited, level, queue[k]))
    && (forall j, k :: 0 <= j <= k < |queue| ==>
         |queue[j].1| <= |queue[k].1| <= |queue[j].1| + 1)
    && (queue != [] ==> forall z :: z in expanded ==> level[z] <= |queue[0].1|)
    && (forall z :: z in expanded ==> Explored(g, z, level, target))
  }

  /**
    The state while `node`, reached by `path` and just dequeued, is expanded:
    its neighbours in `done` have been handled.
   */
  ghost predicate Expanding<N(!new)>(g: Adjacency<N>, start: N, target: N, node: N, path: seq<N>,
                                     queue: seq<(N, seq<N>)>, visited: set<N>, expanded: set<N>,
                                     level: map<N, nat>, done: set<N>)
  {
    && node in g && done <= g[node]
    && start in visited && level.Keys == visited && level[start] == 1
    && EntryOk(g, start, visited, level, (node, path))
    && expanded <= visited
    && (forall y :: y in visited ==> y in expanded || y == node || y in Queued(queue))
    && (forall k :: 0 <= k < |queue| ==> EntryOk(g, start, visited, level, queue[k]))
    && (forall k :: 0 <= k < |queue| ==> |path| <= |queue[k].1| <= |path| + 1)
    && (forall j, k :: 0 <= j <= k < |queue| ==> |queue[j].1| <= |queue[k].1|)
    && (forall z :: z in expanded ==> level[z] <= |path|)
    && (forall z :: z in expanded ==> Explored(g, z, level, target))
    && (forall y :: y in done ==> y in level && level[y] <= |path| + 1 && y != target)
  }

  lemma FrontierInit<N(!new)>(g: Adjacency<N>, start: N, target: N)
    ensures Frontier(g, start, target, [(start, [start])], {start}, {}, map[start := 1])
  {
    var queue := [(start, [start])];
    assert queue[0].0 == start;
  }

  /**
    Whatever is queued has a level at least that of the head of the queue, so
    no walk to `target` has `bound` nodes or fewer when `bound` is at most that level.
   */
  lemma FrontierNoWalk<N(!new)>(g: Adjacency<N>, start: N, target: N, queue: seq<(N, seq<N>)>,
                                visited: set<N>, expanded: set<N>, level: map<N, nat>,
                                bound: int, q: seq<N>)
    requires Frontier(g, start, target, queue, visited, expanded, level)
    requires queue == [] || bound <= |queue[0].1|
    requires WalkBetween(g, q, start, target)
    ensures |q| > bound
  {
    forall y | y in level && y !in expanded
      ensures level[y] >= bound
    {
      var k :| 0 <= k < |queue| && queue[k].0 == y;
      assert EntryOk(g, start, visited, level, queue[k]);
    }
    NoWalkWithin(g, start, target, expanded, level, bound, q);
  }

  /** Dequeuing the head of the queue starts its expansion with no neighbour handled. */
  lemma FrontierPop<N(!new)>(g: Adjacency<N>, start: N, target: N, queue: seq<(N, seq<N>)>,
                             visited: set<N>, expanded: set<N>, level: map<N, nat>)
    requires Frontier(g, start, target, queue, visited, expanded, level)
    requires queue != [] && queue[0].0 in g
    ensures Expanding(g, start, target, queue[0].0, queue[0].1, queue[1..], visited, expanded,
                      level, {})
  {
    QueuedPop(queue);
    assert EntryOk(g, start, visited, level, queue[0]);
    forall k | 0 <= k < |queue[1..]|
      ensures EntryOk(g, start, visited, level, queue[1..][k])
      ensures |queue[0].1| <= |queue[1..][k].1| <= |queue[0].1| + 1
    {
      assert queue[1..][k] == queue[k + 1];
    }
  }

  /** A neighbour already visited (and not the target) needs nothing but to be marked handled. */
  lemma ExpandingVisited<N(!new)>(g: Adjacency<N>, start: N, target: N, node: N, path: seq<N>,
                                  queue: seq<(N, seq<N>)>, visited: set<N>, expanded: set<N>,
                                  level: map<N, nat>, done: set<N>, y: N)
    requires Expanding(g, start, target, node, path, queue, visited, expanded, level, done)
    requires y in g[node] && y != target && y in visited
    ensures Expanding(g, start, target, node, path, queue, visited, expanded, level, done + {y})
  {
    if y !in expanded && y != node {
      var k :| 0 <= k < |queue| && queue[k].0 == y;
      assert EntryOk(g, start, visited, level, queue[k]);
    }
  }

  /** A neighbour seen for the first time is visited and enqueued with its walk. */
  lemma ExpandingEnqueue<N(!new)>(g: Adjacency<N>, start: N, target: N, node: N, path: seq<N>,
                                  queue: seq<(N, seq<N>)>, visited: set<N>, expanded: set<N>,
                                  level: map<N, nat>, done: set<N>, y: N)
    requires Symmetric(g)
    requires Expanding(g, start, target, node, path, queue, visited, expanded, level, done)
    requires y in g[node] && y != target && y !in visited
    ensures Expanding(g, start, target, node, path, queue + [(y, path + [y])], visited + {y},
                      expanded, level[y := |path| + 1], done + {y})
  {
    var entry := (y, path + [y]);
    var visited', level' := visited + {y}, level[y := |path| + 1];
    QueuedAppend(queue, entry);
    EntryOkExtend(g, start, visited, level, (node, path), y);
    EntryOkGrow(g, start, visited, level, (node, path), y, |path| + 1);
    var queue' := queue + [entry];
    forall k | 0 <= k < |queue'|
      ensures EntryOk(g, start, visited', level', queue'[k])
      ensures |path| <= |queue'[k].1| <= |path| + 1
    {
      if k < |queue| {
        assert queue'[k] == queue[k];
        EntryOkGrow(g, start, visited, level, queue[k], y, |path| + 1);
      }
    }
    forall j, k | 0 <= j <= k < |queue'|
      ensures |queue'[j].1| <= |queue'[k].1|
    {
      if k < |queue| {
        assert queue'[j] == queue[j] && queue'[k] == queue[k];
      }
    }
    forall z | z in expanded
      ensures level'[z] == level[z] && level'[z] <= |path| && Explored(g, z, level', target)
    {
      assert Explored(g, z, level, target);
    }
    forall x | x in visited'
      ensures x in expanded || x == node || x in Queued(queue')
    {
    }
  }

  /**
    While `node` is expanded, every node outside `expanded` has a level of at
    least that of `node`, so every walk to `target` is longer than `path`.
   */
  lemma ExpandingNoWalk<N(!new)>(g: Adjacency<N>, start: N, target: N, node: N, path: seq<N>,
                                 queue: seq<(N, seq<N>)>, visited: set<N>, expanded: set<N>,
                                 level: map<N, nat>, done: set<N>, q: seq<N>)
    requires Expanding(g, start, target, node, path, queue, visited, expanded, level, done)
    requires WalkBetween(g, q, start, target)
    ensures |q| > |path|
  {
    forall y | y in level && y !in expanded
      ensures level[y] >= |path|
    {
      if y != node {
        var k :| 0 <= k < |queue| && queue[k].0 == y;
        assert EntryOk(g, start, visited, level, queue[k]);
      }
    }
    NoWalkWithin(g, start, target, expanded, level, |path|, q);
  }

  /** Once every neighbour is handled, `node` joins the expanded nodes. */
  lemma ExpandingDone<N(!new)>(g: Adjacency<N>, start: N, target: N, node: N, path: seq<N>,
                               queue: seq<(N, seq<N>)>, visited: set<N>, expanded: set<N>,
                               level: map<N, nat>)
    requires node in g
    requires Expanding(g, start, target, node, path, queue, visited, expanded, level, g[node])
    ensures Frontier(g, start, target, queue, visited, expanded + {node}, level)
  {
    assert Explored(g, node, level, target);
  }

  /** The walk of an entry, extended by the target among its neighbours, is a connection path. */
  lemma FoundPath<N(!new)>(g: Adjacency<N>, start: N, visited: set<N>, level: map<N, nat>,
                           node: N, path: seq<N>, target: N)
    requires EntryOk(g, start, visited, level, (node, path))
    requires node in g && target in g[node]
    ensures ConnectionPath(g, path + [target], start, target)
  {
    var p := path + [target];
    assert forall i :: 0 <= i < |path| ==> p[i] == path[i];
    assert p[..|path|] == path;
  }

}
