/**
  The ProbabilisticGraph class of probabilistic_graph.py: a dictionary of
  dictionaries that keeps, for each pair of nodes, the probability of the edge
  between them, written in both directions.
 */
module ProbabilisticConnections {

  /** node -> (node -> probability); an absent pair has probability 0. */
  type Store<N(!new)> = map<N, map<N, real>>

  /** get_probability: the stored value, or 0 when either level of the lookup misses. */
  function Probability<N(!new)>(s: Store<N>, a: N, b: N): (r: real)
    ensures a !in s ==> r == 0.0
    ensures a in s && b !in s[a] ==> r == 0.0
    ensures a in s && b in s[a] ==> r == s[a][b]
  {
    if a in s && b in s[a] then s[a][b] else 0.0
  }

  /** Every stored entry has its mirror image with the same value. */
  ghost predicate Symmetric<N(!new)>(s: Store<N>)
  {
    forall a, b :: a in s && b in s[a] ==> b in s && a in s[b] && s[b][a] == s[a][b]
  }

  /** The inner dictionary of `a`, or a fresh empty one when `a` has none yet. */
  function Row<N(!new)>(s: Store<N>, a: N): map<N, real>
  {
    if a in s then s[a] else map[]
  }

  /**
    The store after add_edge(a, b, p): both nodes get an inner dictionary if
    they had none, then `p` is written under (a, b) and under (b, a).
   */
  function Inserted<N(!new)>(s: Store<N>, a: N, b: N, p: real): (r: Store<N>)
    ensures r.Keys == s.Keys + {a, b}
    ensures Probability(r, a, b) == p && Probability(r, b, a) == p
    ensures forall x, y :: !((x == a && y == b) || (x == b && y == a)) ==>
      Probability(r, x, y) == Probability(s, x, y)
  {
    var s1 := if a in s then s else s[a := map[]];
    var s2 := if b in s1 then s1 else s1[b := map[]];
    var s3 := s2[a := s2[a][b := p]];
    s3[b := s3[b][a := p]]
  }

  /** add_edge adds `b` to the inner dictionary of `a`, `a` to that of `b`, and touches no other. */
  lemma InsertedRows<N(!new)>(s: Store<N>, a: N, b: N, p: real, x: N)
    requires x in Inserted(s, a, b, p)
    ensures Inserted(s, a, b, p)[x].Keys ==
      Row(s, x).Keys + (if x == a then {b} else {}) + (if x == b then {a} else {})
  {
  }

  lemma InsertedKeepsSymmetric<N(!new)>(s: Store<N>, a: N, b: N, p: real)
    requires Symmetric(s)
    ensures Symmetric(Inserted(s, a, b, p))
  {
    var r := Inserted(s, a, b, p);
    forall x, y | x in r && y in r[x]
      ensures y in r && x in r[y] && r[y][x] == r[x][y]
    {
      assert Probability(r, x, y) == r[x][y];
      if (x == a && y == b) || (x == b && y == a) {
        assert Probability(r, y, x) == p;
      } else {
        assert Probability(s, x, y) == r[x][y];
        assert x in s && y in s[x];
        assert Probability(r, y, x) == Probability(s, y, x);
      }
    }
  }

  /** In a symmetric store the lookup does not depend on the order of the pair. */
  lemma ProbabilitySymmetric<N(!new)>(s: Store<N>, a: N, b: N)
    requires Symmetric(s)
    ensures Probability(s, a, b) == Probability(s, b, a)
  {
    if a in s && b in s[a] {
      assert s[b][a] == s[a][b];
    }
  }

  /** Writing the same pair again leaves the store exactly as if only the last write had happened. */
  lemma LastWriteWins<N(!new)>(s: Store<N>, a: N, b: N, p: real, q: real)
    ensures Inserted(Inserted(s, a, b, p), a, b, q) == Inserted(s, a, b, q)
  {
    var once, twice := Inserted(s, a, b, q), Inserted(Inserted(s, a, b, p), a, b, q);
    forall x | x in once
      ensures twice[x].Keys == once[x].Keys
    {
      InsertedRows(s, a, b, q, x);
      InsertedRows(s, a, b, p, x);
      InsertedRows(Inserted(s, a, b, p), a, b, q, x);
    }
    SameEntries(twice, once);
  }

  /** The same holds when the second write names the pair in the other order. */
  lemma LastWriteWinsSwapped<N(!new)>(s: Store<N>, a: N, b: N, p: real, q: real)
    ensures Inserted(Inserted(s, a, b, p), b, a, q) == Inserted(s, a, b, q)
  {
    var once, twice := Inserted(s, a, b, q), Inserted(Inserted(s, a, b, p), b, a, q);
    forall x | x in once
      ensures twice[x].Keys == once[x].Keys
    {
      InsertedRows(s, a, b, q, x);
      InsertedRows(s, a, b, p, x);
      InsertedRows(Inserted(s, a, b, p), b, a, q, x);
    }
    SameEntries(twice, once);
  }

  /** Two stores with the same nodes, the same pairs and the same lookups are equal. */
  lemma SameEntries<N(!new)>(s: Store<N>, t: Store<N>)
    requires s.Keys == t.Keys
    requires forall x :: x in s ==> s[x].Keys == t[x].Keys
    requires forall x, y :: Probability(s, x, y) == Probability(t, x, y)
    ensures s == t
  {
    forall x | x in s
      ensures s[x] == t[x]
    {
      forall y | y in s[x]
        ensures s[x][y] == t[x][y]
      {
        assert Probability(s, x, y) == Probability(t, x, y);
      }
    }
  }

  /**
    are_connected with the uniform draw of random.random() passed in as
    `sample`: the edge is present in this trial when the sample falls below the
    stored probability.
   */
  function AreConnected<N(!new)>(s: Store<N>, a: N, b: N, sample: real): (c: bool)
    requires 0.0 <= sample < 1.0
    ensures Probability(s, a, b) <= 0.0 ==> !c
    ensures Probability(s, a, b) >= 1.0 ==> c
  {
    sample < Probability(s, a, b)
  }

  /**
    The trial succeeds for every sample below the threshold and fails for every
    other one, and in a symmetric store it does not depend on the order of the pair.
   */
  lemma AreConnectedThreshold<N(!new)>(s: Store<N>, a: N, b: N, lo: real, hi: real)
    requires Symmetric(s)
    requires 0.0 <= lo <= hi < 1.0
    ensures AreConnected(s, a, b, hi) ==> AreConnected(s, a, b, lo)
    ensures AreConnected(s, a, b, lo) == AreConnected(s, b, a, lo)
  {
    ProbabilitySymmetric(s, a, b);
  }

  // ---------------------------------------------------------------------------
  // A store built by a sequence of add_edge calls
  // ---------------------------------------------------------------------------

  /** The store after add_edge(e.0, e.1, e.2) for each `e` of `edges`, in order, from empty. */
  function Build<N(!new)>(edges: seq<(N, N, real)>): Store<N>
  {
    if edges == [] then map[]
    else
      var e := edges[|edges| - 1];
      Inserted(Build(edges[..|edges| - 1]), e.0, e.1, e.2)
  }

  /** Edge `e` is the pair {x, y}, in either order. */
  ghost predicate OnPair<N(!new)>(e: (N, N, real), x: N, y: N)
  {
    (e.0 == x && e.1 == y) || (e.0 == y && e.1 == x)
  }

  lemma {:induction false} BuildSymmetric<N(!new)>(edges: seq<(N, N, real)>)
    ensures Symmetric(Build(edges))
  {
    if edges != [] {
      var e := edges[|edges| - 1];
      BuildSymmetric(edges[..|edges| - 1]);
      InsertedKeepsSymmetric(Build(edges[..|edges| - 1]), e.0, e.1, e.2);
    }
  }

  /** A pair that no call ever wrote has probability 0. */
  lemma {:induction false} BuildNeverInserted<N(!new)>(edges: seq<(N, N, real)>, x: N, y: N)
    requires forall i :: 0 <= i < |edges| ==> !OnPair(edges[i], x, y)
    ensures Probability(Build(edges), x, y) == 0.0
  {
    if edges != [] {
      var init := edges[..|edges| - 1];
      assert forall i :: 0 <= i < |init| ==> init[i] == edges[i];
      BuildNeverInserted(init, x, y);
      assert !OnPair(edges[|edges| - 1], x, y);
    }
  }

  /** A pair has the probability of the last call that wrote it, whatever the order of its nodes. */
  lemma {:induction false} BuildLastWrite<N(!new)>(edges: seq<(N, N, real)>, i: nat, x: N, y: N)
    requires i < |edges| && OnPair(edges[i], x, y)
    requires forall j :: i < j < |edges| ==> !OnPair(edges[j], x, y)
    ensures Probability(Build(edges), x, y) == edges[i].2
  {
    var last := edges[|edges| - 1];
    if i < |edges| - 1 {
      var init := edges[..|edges| - 1];
      assert init[i] == edges[i];
      assert forall j :: i < j < |init| ==> init[j] == edges[j];
      BuildLastWrite(init, i, x, y);
      assert !OnPair(last, x, y);
    }
  }

  // ---------------------------------------------------------------------------
  // The graph object
  // ---------------------------------------------------------------------------

  class ProbabilisticGraph<N(==,!new)> {
    var graph: Store<N>

    ghost predicate Valid()
      reads this
    {
      Symmetric(graph)
    }

    constructor ()
      ensures Valid() && graph == map[]
    {
      graph := map[];
    }

    /** add_edge: creates the missing inner dictionaries, then writes both directions. */
    method AddEdge(node1: N, node2: N, probability: real)
      requires Valid()
      modifies this
      ensures Valid()
      ensures graph == Inserted(old(graph), node1, node2, probability)
    {
      InsertedKeepsSymmetric(graph, node1, node2, probability);
      if node1 !in graph {
        graph := graph[node1 := map[]];
      }
      if node2 !in graph {
        graph := graph[node2 := map[]];
      }
      graph := graph[node1 := graph[node1][node2 := probability]];
      graph := graph[node2 := graph[node2][node1 := probability]];
    }
  }
}
