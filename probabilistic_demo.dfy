/**
  The example at the bottom of probabilistic_graph.py: three weighted edges
  between three users, the two probabilities it prints, and the two trials it
  runs, with the draw of random.random() for each trial passed in.
 */
module ProbabilisticDemo {
  import opened ProbabilisticConnections

  datatype User = UserA | UserB | UserC

  method Demo(drawAB: real, drawAC: real)
    returns (probabilityAB: real, probabilityAC: real, connectedAB: bool, connectedAC: bool)
    requires 0.0 <= drawAB < 1.0 && 0.0 <= drawAC < 1.0
    ensures probabilityAB == 0.7 && probabilityAC == 0.4
    ensures connectedAB <==> drawAB < 0.7
    ensures connectedAC <==> drawAC < 0.4
  {
    var pg := new ProbabilisticGraph<User>();
    pg.AddEdge(UserA, UserB, 0.7);
    pg.AddEdge(UserA, UserC, 0.4);
    pg.AddEdge(UserB, UserC, 0.6);

    probabilityAB := Probability(pg.graph, UserA, UserB);
    probabilityAC := Probability(pg.graph, UserA, UserC);

    connectedAB := AreConnected(pg.graph, UserA, UserB, drawAB);
    connectedAC := AreConnected(pg.graph, UserA, UserC, drawAC);
  }
}
