# Social graph connections, modelled in Dafny

The repository has two small in-memory graphs.

- `FacebookGraph` (facebook_connections.py) is an undirected, unweighted social graph kept in a `networkx.Graph`. It can:
  - add a connection between two people;
  - list their mutual friends;
  - count a person's friends;
  - list a person's friends of friends, meaning people two connections away who are not already friends;
  - search breadth-first for a connection path of bounded depth.
- `ProbabilisticGraph` (probabilistic_graph.py) is a dictionary of dictionaries. It stores a probability for each pair of nodes, written in both directions. It can:
  - add or overwrite an edge;
  - look up a probability, with 0 for any pair it does not know;
  - run one Bernoulli trial, "are these two connected this time?".

The model follows each file's own shape:

- `SocialGraph` (social_graph.dfy) holds the adjacency as a `map<N, set<N>>`, which stands in for the networkx graph. It contains:
  - the pure operations, edge insertion, mutual friends and the degree, as functions;
  - the facts about walks and friends of friends.
- `ConnectionSearch` (connection_search.dfy) holds the bookkeeping behind the breadth-first search, as ghost predicates and lemmas:
  - a ghost `level` map gives the number of nodes on each visited node's path;
  - a ghost `expanded` set holds the nodes whose neighbours have all been handled;
  - the lemmas show which walks the search has ruled out.
- `FacebookConnections` (facebook_connections.dfy) contains the class `FacebookGraph`. Its methods mutate the adjacency field or loop the way the Python does:
  - `AddConnection`;
  - `FriendsOfFriends`, which loops over the friends and unions their neighbour sets;
  - `FindConnectionPath`, with its queue, visited set and early exits;
  - `ExpandNeighbours`, the inner neighbour loop of the search.
- `ProbabilisticConnections` (probabilistic_graph.dfy) contains the following:
  - the store, a `map<N, map<N, real>>`;
  - the lookup `Probability` and the trial `AreConnected`, which takes the random draw as a parameter;
  - the class `ProbabilisticGraph`, whose `AddEdge` performs the four updates of `add_edge` in the same order;
  - `Build`, which replays a list of `add_edge` calls;
  - the lemmas about symmetry and last-write-wins.
- `FacebookDemo` and `ProbabilisticDemo` replay the examples at the bottom of the two files. They state the answer to each query the examples print.

Behaviour this model fixes where the prose description and the code differ. The code is followed throughout:

- **Unknown nodes.** `networkx` raises for `neighbors(u)` and `degree(u)` when `u` is not in the graph. So the following operations require the nodes they ask about to be present, rather than returning an empty set or zero:
  - `MutualFriends`;
  - `FriendCount`;
  - `FriendsOfFriends`;
  - `FindConnectionPath`. Its start node must be present unless `maxDepth < 1`, because in that case the search stops before it asks for any neighbours.
- **Self-loops.** `add_connection(u, u)` is accepted. The node then becomes its own neighbour, and `networkx` counts the loop twice in the degree.
- **Search depth.** The search stops at the first dequeued path with more than `maxDepth` nodes. It returns as soon as the target shows up as a neighbour. A returned path can therefore have `maxDepth + 1` nodes, that is, `maxDepth` connections. It is also a shortest walk to the target.

## Model

| member | source | states |
|---|---|---|
| SocialGraph.AddEdge | facebook_connections.py:9-10 | Adding {u, v}: both become nodes, each is in the other's neighbour set, no other node is added, and no other node's neighbours change. Neighbour membership afterwards is exactly the old membership plus the pairs (u, v) and (v, u). |
| SocialGraph.AddEdgeKeepsSymmetric | facebook_connections.py:9-10 | An undirected graph stays undirected after an insertion: if v is a neighbour of u, then u is a neighbour of v. |
| SocialGraph.AddEdgeExisting | facebook_connections.py:9-10 | Inserting a connection that already exists leaves the graph unchanged. |
| SocialGraph.AddEdgeIdempotent | facebook_connections.py:9-10 | Inserting the same pair twice gives the same graph as inserting it once. |
| SocialGraph.MutualFriends | facebook_connections.py:12-13 | The result contains exactly the people in both neighbour sets: it is a subset of each set, and it holds every common neighbour. |
| SocialGraph.MutualFriendsCommute | facebook_connections.py:12-13 | The mutual friends of u and v are the mutual friends of v and u. |
| SocialGraph.MutualFriendsFromTheirSide | facebook_connections.py:12-13 | A mutual friend w of u and v has both u and v among its own friends, in an undirected graph. |
| SocialGraph.FriendCount | facebook_connections.py:35-36 | The degree is the size of the neighbour set, plus one more for a self-loop. |
| SocialGraph.FriendCountAfterAddEdge | facebook_connections.py:35-36 | After an insertion, the degree changes as follows: it is unchanged for uninvolved nodes and for an edge already present; it grows by 2 for a new self-loop; it grows by 1 at each end of a new edge. |
| SocialGraph.FriendOfFriendIffMutual | facebook_connections.py:38-44 | In an undirected graph, w is a friend of a friend of u exactly when all of these hold: w is a node; w is not u; w is not a friend of u; u and w have a mutual friend. |
| ConnectionSearch.NoWalkWithin | facebook_connections.py:19-31 | Suppose every node the search has not expanded sits at least `bound` nodes from the start. Then every walk from the start to a target the search has not yet seen has more than `bound` nodes. |
| ConnectionSearch.FoundPath | facebook_connections.py:26-27 | The queued path of the node being expanded, followed by the target, starts at the start node. It ends at the target, follows connections, and repeats no node before the last. |
| FacebookConnections.FacebookGraph.constructor | facebook_connections.py:6-7 | A new graph is empty and undirected. |
| FacebookConnections.FacebookGraph.AddConnection | facebook_connections.py:9-10 | The adjacency becomes `AddEdge` of the old adjacency, and it stays undirected. |
| FacebookConnections.FacebookGraph.FriendsOfFriends | facebook_connections.py:38-44 | w is in the result exactly when w is adjacent to some friend of u, is not u, and is not a friend of u. The result is empty when u has no friends. |
| FacebookConnections.FacebookGraph.FindConnectionPath | facebook_connections.py:15-33 | `maxDepth` defaults to 3, as `max_depth` does. A returned path has these properties: it goes from start to end along connections; it repeats no node before the last; it has at most `maxDepth + 1` nodes; it is no longer than any walk from start to end. `None` is returned exactly when every walk from start to end has more than `maxDepth + 1` nodes. In particular, it is always `None` when `maxDepth < 1`. |
| FacebookConnections.FacebookGraph.ExpandNeighbours | facebook_connections.py:25-31 | The method reports the target exactly when it is a neighbour of the expanded node. Otherwise the node counts as expanded and the search invariant holds again. Newly visited nodes are graph nodes, and the queue changes only when some node is newly visited. |
| ProbabilisticConnections.Inserted | probabilistic_graph.py:7-14 | The store after `add_edge(a, b, p)`: a and b become keys, and both directions of the pair read `p`. Every other pair reads what it read before. |
| ProbabilisticConnections.InsertedRows | probabilistic_graph.py:9-14 | Only the inner dictionaries of a and b gain a key: b and a respectively. Nothing else gains one. |
| ProbabilisticConnections.InsertedKeepsSymmetric | probabilistic_graph.py:13-14 | After `add_edge`, every stored entry still has a mirror entry with the same value. |
| ProbabilisticConnections.Probability | probabilistic_graph.py:16-18 | The stored value of the pair, or 0 when either level of the lookup misses: an unknown first node or an unknown second node. It is defined for every pair and never fails; BuildNeverInserted and ProbabilitySymmetric prove what it gives on stores built by add_edge. |
| ProbabilisticConnections.ProbabilitySymmetric | probabilistic_graph.py:16-18 | In a symmetric store, the lookup gives the same value in both orders. |
| ProbabilisticConnections.LastWriteWins | probabilistic_graph.py:13-14 | Writing a pair twice gives exactly the store of the second write alone. |
| ProbabilisticConnections.LastWriteWinsSwapped | probabilistic_graph.py:13-14 | The same holds when the second write names the pair in the other order. |
| ProbabilisticConnections.AreConnected | probabilistic_graph.py:20-23 | A trial with a draw in [0, 1) always fails when the probability is at most 0, and always succeeds when it is at least 1. |
| ProbabilisticConnections.AreConnectedThreshold | probabilistic_graph.py:20-23 | A trial that succeeds for one draw also succeeds for every smaller draw. In a symmetric store, the order of the pair does not matter. |
| ProbabilisticConnections.BuildSymmetric | probabilistic_graph.py:7-14 | Any sequence of `add_edge` calls leaves the store symmetric. |
| ProbabilisticConnections.BuildNeverInserted | probabilistic_graph.py:16-18 | A pair that no call wrote, in either order, has probability 0. This includes pairs with an unknown node. |
| ProbabilisticConnections.BuildLastWrite | probabilistic_graph.py:13-14 | A pair has the probability given by the last call that wrote it, in either order. |
| ProbabilisticConnections.ProbabilisticGraph.constructor | probabilistic_graph.py:4-5 | A new store is empty and symmetric. |
| ProbabilisticConnections.ProbabilisticGraph.AddEdge | probabilistic_graph.py:7-14 | The store becomes `Inserted` of the old store, and it stays symmetric. |
| FacebookDemo.InsertingNeighbours | facebook_connections.py:69-78 | After inserting a list of connections, v is a friend of u exactly when the list holds (u, v) or (v, u). Every node the list created has at least one friend. |
| FacebookDemo.DemoAdjacencyBuilt | facebook_connections.py:69-78 | Each of the eight people ends up with the friends listed for them in `DemoFriends`. |
| FacebookDemo.BuildDemoGraph | facebook_connections.py:66-78 | Looping `add_connection` over the connection list builds exactly the example adjacency. |
| FacebookDemo.HopsAlongWalk | facebook_connections.py:69-75 | The node at position i of a walk from Alice is at most i connections away from her. |
| FacebookDemo.WalkFromAliceLength | facebook_connections.py:69-75 | Every walk from Alice to u has more nodes than u's hop count from Alice: 3 for George and 4 for Harry. |
| FacebookDemo.DemoFriendsOfFriends | facebook_connections.py:103 | Alice's friends of friends are exactly Eve and Frank. |
| FacebookDemo.Demo | facebook_connections.py:80-114 | The seven queries give the following: mutual friends of Alice and Bob = {Charlie}; a 4-node path from Alice to George; no path from Alice to Harry at depth 2; Bob has 4 friends and George 3; Alice's friends of friends = {Eve, Frank}; Alice and George have no mutual friends; no path from Alice to Harry at the default depth 3. |
| ProbabilisticDemo.Demo | probabilistic_graph.py:26-36 | After the three edges, A–B reads 0.7 and A–C reads 0.4. Each trial succeeds exactly when its draw is below that probability. |

## Left out

- `visualize_graph` (facebook_connections.py:46-63) is matplotlib drawing and networkx layout. It has no state or result to model.
- The demo scripts' `print` calls and the `visualize_graph` calls they make. The demo modules keep the scripts' edge lists, calls and results.
- networkx internals. The graph is a map from node to neighbour set. Neighbour iteration order is left open: the search picks any unhandled neighbour. So the model fixes which shortest path is found only up to that choice, while the Python follows insertion order.
- `random.random()` is a parameter `sample` (or a `draw` in the demo), with 0 ≤ sample < 1. Probabilities are `real`, not floating point, and no range check is added, because the code has none.
- Nested dictionaries are values in the model, so aliasing of the inner dictionaries is not modelled. The code never shares them between keys.
- `get_mutual_friends` and `get_friend_count` are single expressions, so they are functions over the adjacency rather than class methods. `get_probability` and `are_connected` are the functions `Probability` and `AreConnected` over the store, for the same reason.
- FacebookConnections.FacebookGraph.FindConnectionPath: the neighbour loop is split out as `ExpandNeighbours`. It returns a `found` flag, and the caller then returns the path. This is the same control flow as returning from inside the loop.
- The example's people are the constructors of a `Person` datatype, and its users the constructors of a `User` datatype, rather than strings. Only equality of names matters to the code.
