/**
  The example at the bottom of facebook_connections.py: twelve connections
  between eight people, then the seven queries it prints, each with the answer
  the model guarantees.
 */
module FacebookDemo {
  import opened SocialGraph
  import opened FacebookConnections

  datatype Person = Alice | Bob | Charlie | David | Eve | Frank | George | Harry

  const Connections: seq<(Person, Person)> := [
    (Alice, Bob), (Alice, Charlie), (Alice, David),
    (Bob, Charlie), (Bob, Eve), (Bob, Frank),
    (Charlie, David), (Charlie, Eve),
    (David, Frank), (Eve, George),
    (Frank, George), (George, Harry)
  ]

  /** The adjacency after inserting `connections` in order into an empty graph. */
  function Inserting(connections: seq<(Person, Person)>): Adjacency<Person>
  {
    if connections == [] then map[]
    else
      var c := connections[|connections| - 1];
      AddEdge(Inserting(connections[..|connections| - 1]), c.0, c.1)
  }

  /** Each person's friends once the connection list is in. */
  function DemoFriends(u: Person): set<Person>
  {
    match u
    case Alice => {Bob, Charlie, David}
    case Bob => {Alice, Charlie, Eve, Frank}
    case Charlie => {Alice, Bob, David, Eve}
    case David => {Alice, Charlie, Frank}
    case Eve => {Bob, Charlie, George}
    case Frank => {Bob, David, George}
    case George => {Eve, Frank, Harry}
    case Harry => {George}
  }

  /**
    Inserting a list of connections makes `v` a friend of `u` exactly when the
    list holds the pair in one order or the other, and every node it creates
    has a friend.
   */
  lemma {:induction false} InsertingNeighbours(connections: seq<(Person, Person)>, u: Person, v: Person)
    ensures v in Neighbours(Inserting(connections), u) <==>
      (u, v) in connections || (v, u) in connections
    ensures u in Inserting(connections) ==> Inserting(connections)[u] != {}
  {
    if connections != [] {
      var init := connections[..|connections| - 1];
      var c := connections[|connections| - 1];
      assert connections == init + [c];
      InsertingNeighbours(init, u, v);
      InsertingNeighbours(init, u, c.1);
      InsertingNeighbours(init, u, c.0);
    }
  }

  /** A person whose pairs in the connection list are exactly `friends` ends up with those friends. */
  lemma RowFromConnections(u: Person, friends: set<Person>)
    requires friends != {}
    requires forall v :: v in friends <==> (u, v) in Connections || (v, u) in Connections
    ensures u in Inserting(Connections) && Inserting(Connections)[u] == friends
  {
    var built := Inserting(Connections);
    forall v
      ensures v in Neighbours(built, u) <==> v in friends
    {
      InsertingNeighbours(Connections, u, v);
    }
    var w :| w in friends;
    assert w in Neighbours(built, u);
  }

  lemma DemoAdjacencyBuilt(u: Person)
    ensures u in Inserting(Connections) && Inserting(Connections)[u] == DemoFriends(u)
  {
    match u
    case Alice => RowFromConnections(u, DemoFriends(u));
    case Bob => RowFromConnections(u, DemoFriends(u));
    case Charlie => RowFromConnections(u, DemoFriends(u));
    case David => RowFromConnections(u, DemoFriends(u));
    case Eve => RowFromConnections(u, DemoFriends(u));
    case Frank => RowFromConnections(u, DemoFriends(u));
    case George => RowFromConnections(u, DemoFriends(u));
    case Harry => RowFromConnections(u, DemoFriends(u));
  }

  /** The loop over the connection list, starting from an empty graph. */
  method BuildDemoGraph() returns (g: FacebookGraph<Person>)
    ensures fresh(g) && g.Valid()
    ensures forall u :: u in g.adj && g.adj[u] == DemoFriends(u)
  {
    g := new FacebookGraph();
    var i := 0;
    while i < |Connections|
      invariant 0 <= i <= |Connections|
      invariant g.Valid() && g.adj == Inserting(Connections[..i])
    {
      assert Connections[..i + 1][..i] == Connections[..i];
      g.AddConnection(Connections[i].0, Connections[i].1);
      i := i + 1;
    }
    assert Connections[..i] == Connections;
    forall u
      ensures u in g.adj && g.adj[u] == DemoFriends(u)
    {
      DemoAdjacencyBuilt(u);
    }
  }

  /** The adjacency of the example graph. */
  ghost predicate IsDemoGraph(g: Adjacency<Person>)
  {
    forall u :: u in g && g[u] == DemoFriends(u)
  }

  /** A lower bound on the connections between Alice and each person in the example graph (exact there). */
  function HopsFromAlice(u: Person): nat
  {
    match u
    case Alice => 0
    case Bob | Charlie | David => 1
    case Eve | Frank => 2
    case George => 3
    case Harry => 4
  }

  /** A connection moves at most one hop further from Alice. */
  lemma HopsAlongEdge(x: Person, y: Person)
    requires y in DemoFriends(x)
    ensures HopsFromAlice(y) <= HopsFromAlice(x) + 1
  {
  }

  /** The node at position `i` of a walk from Alice is at most `i` hops from her. */
  lemma {:induction false} HopsAlongWalk(g: Adjacency<Person>, q: seq<Person>, i: nat)
    requires IsDemoGraph(g) && IsWalk(g, q) && |q| >= 1 && q[0] == Alice
    requires i < |q|
    ensures HopsFromAlice(q[i]) <= i
  {
    if i > 0 {
      HopsAlongWalk(g, q, i - 1);
      assert q[i] in g[q[i - 1]];
      HopsAlongEdge(q[i - 1], q[i]);
    }
  }

  /** Every walk from Alice to `u` has more nodes than `u` has hops from her. */
  lemma WalkFromAliceLength(g: Adjacency<Person>, q: seq<Person>, u: Person)
    requires IsDemoGraph(g) && WalkBetween(g, q, Alice, u)
    ensures |q| >= HopsFromAlice(u) + 1
  {
    HopsAlongWalk(g, q, |q| - 1);
  }

  /** Alice's friends of friends in the example graph are Eve and Frank. */
  lemma DemoFriendsOfFriends(g: Adjacency<Person>, w: Person)
    requires IsDemoGraph(g) && Symmetric(g)
    ensures IsFriendOfFriend(g, Alice, w) <==> w == Eve || w == Frank
  {
    FriendOfFriendIffMutual(g, Alice, w);
    if w == Eve {
      assert Bob in MutualFriends(g, Alice, w);
    } else if w == Frank {
      assert Bob in MutualFriends(g, Alice, w);
    }
  }

  /**
    The queries of the example, in the order it prints them: mutual friends of
    Alice and Bob, a path from Alice to George, a path from Alice to Harry
    within depth 2, the friend counts of Bob and George, Alice's friends of
    friends, mutual friends of Alice and George, and a path from Alice to
    Harry within the default depth 3.
   */
  method Demo() returns (mutualAliceBob: set<Person>, pathAliceGeorge: Option<seq<Person>>,
                         pathAliceHarryDepth2: Option<seq<Person>>, countBob: nat, countGeorge: nat,
                         friendsOfFriendsAlice: set<Person>, mutualAliceGeorge: set<Person>,
                         pathAliceHarry: Option<seq<Person>>)
    ensures mutualAliceBob == {Charlie}
    ensures pathAliceGeorge.Some? && |pathAliceGeorge.value| == 4
    ensures pathAliceGeorge.Some? ==>
      pathAliceGeorge.value[0] == Alice && pathAliceGeorge.value[|pathAliceGeorge.value| - 1] == George
    ensures pathAliceHarryDepth2 == None
    ensures countBob == 4 && countGeorge == 3
    ensures friendsOfFriendsAlice == {Eve, Frank}
    ensures mutualAliceGeorge == {}
    ensures pathAliceHarry == None
  {
    var g := BuildDemoGraph();
    assert IsDemoGraph(g.adj);

    mutualAliceBob := MutualFriends(g.adj, Alice, Bob);
    assert Alice in g.adj[Bob];

    pathAliceGeorge := g.FindConnectionPath(Alice, George);
    var viaEve := [Alice, Bob, Eve, George];
    assert WalkBetween(g.adj, viaEve, Alice, George);
    if pathAliceGeorge.Some? {
      WalkFromAliceLength(g.adj, pathAliceGeorge.value, George);
    }

    pathAliceHarryDepth2 := g.FindConnectionPath(Alice, Harry, 2);
    if pathAliceHarryDepth2.Some? {
      WalkFromAliceLength(g.adj, pathAliceHarryDepth2.value, Harry);
    }

    countBob := FriendCount(g.adj, Bob);
    countGeorge := FriendCount(g.adj, George);

    friendsOfFriendsAlice := g.FriendsOfFriends(Alice);
    forall w
      ensures w in friendsOfFriendsAlice <==> w in {Eve, Frank}
    {
      DemoFriendsOfFriends(g.adj, w);
    }

    mutualAliceGeorge := MutualFriends(g.adj, Alice, George);

    pathAliceHarry := g.FindConnectionPath(Alice, Harry);
    if pathAliceHarry.Some? {
      WalkFromAliceLength(g.adj, pathAliceHarry.value, Harry);
    }
  }
}
