/**
  The FacebookGraph class of facebook_connections.py: the graph object whose
  methods insert connections and run the friends-of-friends and connection
  path searches.
 */
module FacebookConnections {
  import opened SocialGraph
  import opened ConnectionSearch

  datatype Option<T> = None | Some(value: T)

  class FacebookGraph<N(==,!new)> {
    var adj: Adjacency<N>

    ghost predicate Valid()
      reads this
    {
      Symmetric(adj)
    }

    constructor ()
      ensures Valid() && adj == map[]
    {
      adj := map[];
    }

    /** add_connection: inserts the undirected edge {u, v}. */
    method AddConnection(u: N, v: N)
      requires Valid()
      modifies this
      ensures Valid()
      ensures adj == AddEdge(old(adj), u, v)
    {
      AddEdgeKeepsSymmetric(adj, u, v);
      adj := AddEdge(adj, u, v);
    }

    /**
      get_friends_of_friends: the union of the friends' neighbour sets, without
      `u` and without the friends themselves.
     */
    method FriendsOfFriends(u: N) returns (r: set<N>)
      requires Valid() && u in adj
      ensures forall w :: w in r <==> IsFriendOfFriend(adj, u, w)
      ensures adj[u] == {} ==> r == {}
    {
      var friends := adj[u];
      var acc: set<N> := {};
      var rest := friends;
      while rest != {}
        invariant rest <= friends
        invariant acc == AdjacentToAny(adj, friends - rest)
        decreases rest
      {
        var f :| f in rest;
        AdjacentToAnyAdd(adj, friends - rest, f);
        assert f in adj;
        acc := acc + adj[f];
        rest := rest - {f};
        assert friends - rest == (friends - (rest + {f})) + {f};
      }
      acc := acc - {u};
      r := acc - friends;
      forall w
        ensures w in r <==> IsFriendOfFriend(adj, u, w)
      {
        AdjacentToAnyMeans(adj, friends, w);
      }
    }

    /**
      find_connection_path: breadth-first search from `start` that gives up at
      the first dequeued path with more than `maxDepth` nodes, and returns as
      soon as `end` shows up among the neighbours of the node being expanded.
      A found path is a shortest walk to `end`, and it can have `maxDepth + 1`
      nodes; no path is found exactly when no walk of at most `maxDepth` edges
      reaches `end`.
     */
    method FindConnectionPath(start: N, end: N, maxDepth: int := 3) returns (r: Option<seq<N>>)
      requires Valid()
      requires start in adj || maxDepth < 1
      ensures r.Some? ==> ConnectionPath(adj, r.value, start, end)
      ensures r.Some? ==> |r.value| <= maxDepth + 1
      ensures r.Some? ==> forall q :: WalkBetween(adj, q, start, end) ==> |r.value| <= |q|
      ensures r.None? ==> forall q :: WalkBetween(adj, q, start, end) ==> |q| > maxDepth + 1
      ensures maxDepth < 1 ==> r.None?
    {
      var queue: seq<(N, seq<N>)> := [(start, [start])];
      var visited: set<N> := {start};
      ghost var expanded: set<N> := {};
      ghost var level: map<N, nat> := map[start := 1];
      FrontierInit(adj, start, end);

      while queue != []
        invariant Frontier(adj, start, end, queue, visited, expanded, level)
        decreases adj.Keys - visited, |queue|
      {
        ghost var before, visitedBefore, levelBefore := queue, visited, level;
        var node, path := queue[0].0, queue[0].1;
        queue := queue[1..];

        if |path| > maxDepth {
          forall q | WalkBetween(adj, q, start, end)
            ensures |q| > maxDepth + 1
          {
            FrontierNoWalk(adj, start, end, before, visited, expanded, level, |path|, q);
          }
          return None;
        }
        assert EntryOk(adj, start, visited, level, before[0]);
        FrontierPop(adj, start, end, before, visited, expanded, level);

        ghost var popped := queue;
        var found;
        found, queue, visited, level :=
          ExpandNeighbours(start, end, node, path, queue, visited, expanded, level);
        if found {
          FoundPath(adj, start, visitedBefore, levelBefore, node, path, end);
          return Some(path + [end]);
        }
        expanded := expanded + {node};
        if visited != visitedBefore {
          assert exists y :: y in visited && y !in visitedBefore;
          var y :| y in visited && y !in visitedBefore;
          assert y in adj.Keys - visitedBefore && y !in adj.Keys - visited;
        }
      }

      forall q | WalkBetween(adj, q, start, end)
        ensures |q| > maxDepth + 1
      {
        FrontierNoWalk(adj, start, end, queue, visited, expanded, level, maxDepth + 1, q);
      }
      r := None;
    }

    /**
      The inner loop of find_connection_path: hands each neighbour of `node` in
      turn, stopping with `found` as soon as one is `end`, and otherwise visiting
      and enqueuing the neighbours not yet visited.
     */
    method ExpandNeighbours(start: N, end: N, node: N, path: seq<N>,
                            queue0: seq<(N, seq<N>)>, visited0: set<N>,
                            ghost expanded: set<N>, ghost level0: map<N, nat>)
      returns (found: bool, queue: seq<(N, seq<N>)>, visited: set<N>, ghost level: map<N, nat>)
      requires Valid()
      requires Expanding(adj, start, end, node, path, queue0, visited0, expanded, level0, {})
      ensures found ==> end in adj[node]
      ensures found ==> forall q :: WalkBetween(adj, q, start, end) ==> |q| > |path|
      ensures !found ==> end !in adj[node]
      ensures !found ==> Frontier(adj, start, end, queue, visited, expanded + {node}, level)
      ensures visited0 <= visited && visited - visited0 <= adj.Keys
      ensures visited == visited0 ==> queue == queue0
    {
      queue, visited, level := queue0, visited0, level0;
      var rest := adj[node];
      while rest != {}
        invariant rest <= adj[node]
        invariant Expanding(adj, start, end, node, path, queue, visited, expanded, level,
                            adj[node] - rest)
        invariant visited0 <= visited && visited - visited0 <= adj.Keys
        invariant visited == visited0 ==> queue == queue0
        decreases rest
      {
        var y :| y in rest;
        ghost var done := adj[node] - rest;
        rest := rest - {y};
        assert adj[node] - rest == done + {y};
        if y == end {
          forall q | WalkBetween(adj, q, start, end)
            ensures |q| > |path|
          {
            ExpandingNoWalk(adj, start, end, node, path, queue, visited, expanded, level, done, q);
          }
          return true, queue, visited, level;
        }
        if y !in visited {
          ExpandingEnqueue(adj, start, end, node, path, queue, visited, expanded, level, done, y);
          visited := visited + {y};
          level := level[y := |path| + 1];
          queue := queue + [(y, path + [y])];
        } else {
          ExpandingVisited(adj, start, end, node, path, queue, visited, expanded, level, done, y);
        }
      }
      ExpandingDone(adj, start, end, node, path, queue, visited, expanded, level);
      found := false;
    }
  }
}
