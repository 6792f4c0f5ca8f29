/**
  The adjacency of the social graph in facebook_connections.py (the model of
  a networkx Graph: a map from each node to the set of its neighbours) and the
  set queries on it.
 */
module SocialGraph {

  /** Node -> set of neighbours; a node exists exactly when it is a key. */
  type Adjacency<N(!new)> = map<N, set<N>>

  /** The neighbours of `u`, or the empty set when `u` is not a node. */
  function Neighbours<N(!new)>(g: Adjacency<N>, u: N): set<N>
  {
    if u in g then g[u] else {}
  }

  /** Every neighbour is a node, and adjacency goes both ways. */
  ghost predicate Symmetric<N(!new)>(g: Adjacency<N>)
  {
    forall u, v :: u in g && v in g[u] ==> v in g && u in g[v]
  }

  // ---------------------------------------------------------------------------
  // add_connection
  // ---------------------------------------------------------------------------

  /**
    networkx `add_edge(u, v)`: both endpoints become nodes and each enters the
    other's neighbour set. `u == v` makes a self-loop.
   */
  function AddEdge<N(!new)>(g: Adjacency<N>, u: N, v: N): (r: Adjacency<N>)
    ensures r.Keys == g.Keys + {u, v}
    ensures v in r[u] && u in r[v]
    ensures forall w :: w in g && w != u && w != v ==> r[w] == g[w]
    ensures forall w, x :: x in Neighbours(r, w) <==>
      x in Neighbours(g, w) || (w == u && x == v) || (w == v && x == u)
  {
    var g1 := g[u := Neighbours(g, u) + {v}];
    g1[v := Neighbours(g1, v) + {u}]
  }

  lemma AddEdgeKeepsSymmetric<N(!new)>(g: Adjacency<N>, u: N, v: N)
    requires Symmetric(g)
    ensures Symmetric(AddEdge(g, u, v))
  {
    var r := AddEdge(g, u, v);
    forall a, b | a in r && b in r[a]
      ensures b in r && a in r[b]
    {
      assert b in Neighbours(r, a);
      assert a in Neighbours(r, b);
    }
  }

  /** Inserting an edge that is already there changes nothing. */
  lemma AddEdgeExisting<N(!new)>(g: Adjacency<N>, u: N, v: N)
    requires Symmetric(g)
    requires u in g && v in g[u]
    ensures AddEdge(g, u, v) == g
  {
    var r := AddEdge(g, u, v);
    assert r.Keys == g.Keys;
    forall w | w in g
      ensures r[w] == g[w]
    {
      forall x
        ensures x in r[w] <==> x in g[w]
      {
        assert x in Neighbours(r, w) <==> x in Neighbours(g, w);
      }
    }
  }

  /** Inserting the same pair twice is the same as inserting it once. */
  lemma AddEdgeIdempotent<N(!new)>(g: Adjacency<N>, u: N, v: N)
    ensures AddEdge(AddEdge(g, u, v), u, v) == AddEdge(g, u, v)
  {
    var r1 := AddEdge(g, u, v);
    var r2 := AddEdge(r1, u, v);
    assert r2.Keys == r1.Keys;
    forall w | w in r1
      ensures r2[w] == r1[w]
    {
      forall x
        ensures x in r2[w] <==> x in r1[w]
      {
        assert x in Neighbours(r2, w) <==> x in Neighbours(r1, w);
      }
    }
  }

  // ---------------------------------------------------------------------------
  // get_mutual_friends and get_friend_count
  // ---------------------------------------------------------------------------

  /** The common neighbours of `u` and `v`. */
  function MutualFriends<N(!new)>(g: Adjacency<N>, u: N, v: N): (r: set<N>)
    requires u in g && v in g
    ensures r <= g[u] && r <= g[v]
    ensures forall w :: w in g[u] && w in g[v] ==> w in r
  {
    g[u] * g[v]
  }

  lemma MutualFriendsCommute<N(!new)>(g: Adjacency<N>, u: N, v: N)
    requires u in g && v in g
    ensures MutualFriends(g, u, v) == MutualFriends(g, v, u)
  {
  }

  /** In a symmetric graph, the mutual friends are the nodes that have both `u` and `v` as friends. */
  lemma MutualFriendsFromTheirSide<N(!new)>(g: Adjacency<N>, u: N, v: N, w: N)
    requires Symmetric(g) && u in g && v in g
    ensures w in MutualFriends(g, u, v) <==> w in g && u in g[w] && v in g[w]
  {
  }

  /**
    networkx `degree(u)`: the number of neighbours, where a self-loop is
    counted twice.
   */
  function FriendCount<N(!new)>(g: Adjacency<N>, u: N): (r: nat)
    requires u in g
    ensures u !in g[u] ==> r == |g[u]|
    ensures u in g[u] ==> r == |g[u]| + 1
  {
    |g[u]| + if u in g[u] then 1 else 0
  }

  /**
    Adding an edge raises the count of each endpoint by one (a new self-loop
    by two) when the edge is new, and changes no count when it is not.
   */
  lemma FriendCountAfterAddEdge<N(!new)>(g: Adjacency<N>, u: N, v: N, w: N)
    requires Symmetric(g)
    requires w in g
    ensures FriendCount(AddEdge(g, u, v), w) ==
      if w !in {u, v} || (u in g && v in g[u]) then FriendCount(g, w)
      else if u == v then FriendCount(g, w) + 2
      else FriendCount(g, w) + 1
  {
    var r := AddEdge(g, u, v);
    if u in g && v in g[u] {
      AddEdgeExisting(g, u, v);
    } else if w == u || w == v {
      assert v !in Neighbours(g, u);
      assert u !in Neighbours(g, v);
      var other := if w == u then v else u;
      assert Neighbours(r, w) == g[w] + {other};
      assert other !in g[w];
      if u == v {
        assert r[w] == g[w] + {w};
      } else {
        assert w in r[w] <==> w in g[w];
      }
    }
  }

  // ---------------------------------------------------------------------------
  // get_friends_of_friends
  // ---------------------------------------------------------------------------

  /** `w` is two hops from `u` and is neither `u` nor one of its friends. */
  ghost predicate IsFriendOfFriend<N(!new)>(g: Adjacency<N>, u: N, w: N)
    requires u in g
  {
    w != u && w !in g[u] && exists f :: f in g[u] && w in Neighbours(g, f)
  }

  /**
    In a symmetric graph, `w` is a friend of a friend of `u` exactly when it
    is another node, not already a friend, that shares a mutual friend with `u`.
   */
  lemma FriendOfFriendIffMutual<N(!new)>(g: Adjacency<N>, u: N, w: N)
    requires Symmetric(g) && u in g
    ensures IsFriendOfFriend(g, u, w) <==>
      w in g && w != u && w !in g[u] && MutualFriends(g, u, w) != {}
  {
    if IsFriendOfFriend(g, u, w) {
      var f :| f in g[u] && w in Neighbours(g, f);
      assert f in MutualFriends(g, u, w);
    }
    if w in g && w != u && w !in g[u] && MutualFriends(g, u, w) != {} {
      var f :| f in MutualFriends(g, u, w);
      assert w in Neighbours(g, f);
    }
  }

  /** The nodes adjacent to some member of `fs`. */
  ghost function AdjacentToAny<N(!new)>(g: Adjacency<N>, fs: set<N>): set<N>
  {
    set f, w | f in fs && w in Neighbours(g, f) :: w
  }

  lemma AdjacentToAnyAdd<N(!new)>(g: Adjacency<N>, fs: set<N>, f: N)
    ensures AdjacentToAny(g, fs + {f}) == AdjacentToAny(g, fs) + Neighbours(g, f)
  {
  }

  lemma AdjacentToAnyMeans<N(!new)>(g: Adjacency<N>, fs: set<N>, w: N)
    ensures w in AdjacentToAny(g, fs) <==> exists f :: f in fs && w in Neighbours(g, f)
  {
  }

  // ---------------------------------------------------------------------------
  // find_connection_path: walks
  // ---------------------------------------------------------------------------

  /** Consecutive nodes of `p` are adjacent. */
  ghost predicate IsWalk<N(!new)>(g: Adjacency<N>, p: seq<N>)
  {
    forall i :: 0 <= i < |p| - 1 ==> p[i] in g && p[i + 1] in g[p[i]]
  }

  /** `p` is a walk of at least one edge from `s` to `e`. */
  ghost predicate WalkBetween<N(!new)>(g: Adjacency<N>, p: seq<N>, s: N, e: N)
  {
    |p| >= 2 && p[0] == s && p[|p| - 1] == e && IsWalk(g, p)
  }

  ghost predicate Distinct<N(!new)>(p: seq<N>)
  {
    forall i, j :: 0 <= i < j < |p| ==> p[i] != p[j]
  }

  /** What a found connection path is: a walk whose nodes before the last are distinct. */
  ghost predicate ConnectionPath<N(!new)>(g: Adjacency<N>, p: seq<N>, s: N, e: N)
  {
    WalkBetween(g, p, s, e) && Distinct(p[..|p| - 1])
  }
}
