/**
  The route query over the park's own adjacency list, and what it answers
  for two concrete pairs of locations: from "Enclos 1" to "Enclos 3" under
  any admissible estimate, and from "Enclos 2" under any estimate.
 */
module ZooRoutes {
  import opened Walks
  import opened NavigationManager

  /** The cheapest cost from each location to "Enclos 3". "Enclos 2" has no
      way out, so any bound of at least 9 is consistent there; so is 100. */
  function CostToEnclos3(v: string): int {
    if v == "Enclos 3" then 0
    else if v == "Boutique" then 6
    else if v == "Restaurant" then 9
    else if v == "Gare" then 13
    else if v == "Enclos 1" then 17
    else 100
  }

  /** No edge of the park beats CostToEnclos3. */
  lemma CostToEnclos3IsConsistent()
    ensures Consistent(ZooGraph(), CostToEnclos3)
  {
    var g: Graph := ZooGraph();
    forall u, k | u in g && 0 <= k < |g[u]| ensures CostToEnclos3(u) <= g[u][k].1 + CostToEnclos3(g[u][k].0) {
      if u == "Enclos 1" {
        assert k == 0 || k == 1;
      } else if u == "Gare" {
        assert k == 0 || k == 1 || k == 2;
      } else if u == "Restaurant" {
        assert k == 0 || k == 1;
      } else {
        assert u == "Boutique";
        assert k == 0 || k == 1 || k == 2;
      }
    }
  }

  /** Out of "Enclos 1", "Restaurant" and "Boutique", the only steps of the
      park that lower CostToEnclos3 by exactly their cost are the route's. */
  lemma TightSteps(u: string, v: string)
    requires IsEdge(ZooGraph(), u, v)
    requires CostToEnclos3(u) == EdgeCost(ZooGraph(), u, v) + CostToEnclos3(v)
    ensures u == "Enclos 1" ==> v == "Restaurant"
    ensures u == "Restaurant" ==> v == "Boutique"
    ensures u == "Boutique" ==> v == "Enclos 3"
  {
    var g: Graph := ZooGraph();
    var k: int :| 0 <= k < |g[u]| && g[u][k].0 == v && g[u][k].1 == EdgeCost(g, u, v);
    if u == "Enclos 1" {
      assert k == 0 || k == 1;
    } else if u == "Restaurant" {
      assert k == 0 || k == 1;
    } else if u == "Boutique" {
      assert k == 0 || k == 1 || k == 2;
    }
  }

  /** Out of "Enclos 1", "Restaurant" and "Boutique", the only steps of `g`
      that lower CostToEnclos3 by exactly their cost are those of the route
      through the restaurant and the shop. */
  ghost predicate TightOnlyAlongRoute(g: Graph) {
    forall u, v :: IsEdge(g, u, v) && CostToEnclos3(u) == EdgeCost(g, u, v) + CostToEnclos3(v) ==>
      (u == "Enclos 1" ==> v == "Restaurant") &&
      (u == "Restaurant" ==> v == "Boutique") &&
      (u == "Boutique" ==> v == "Enclos 3")
  }

  /** The park's list forces the tight steps. */
  lemma ZooTightOnlyAlongRoute()
    ensures TightOnlyAlongRoute(ZooGraph())
  {
    forall u, v | IsEdge(ZooGraph(), u, v) && CostToEnclos3(u) == EdgeCost(ZooGraph(), u, v) + CostToEnclos3(v)
      ensures (u == "Enclos 1" ==> v == "Restaurant") && (u == "Restaurant" ==> v == "Boutique") && (u == "Boutique" ==> v == "Enclos 3")
    {
      TightSteps(u, v);
    }
  }

  /** The three steps of the route through the restaurant and the shop. */
  ghost predicate RouteSteps(g: Graph) {
    IsEdge(g, "Enclos 1", "Restaurant") && EdgeCost(g, "Enclos 1", "Restaurant") == 8 &&
    IsEdge(g, "Restaurant", "Boutique") && EdgeCost(g, "Restaurant", "Boutique") == 3 &&
    IsEdge(g, "Boutique", "Enclos 3") && EdgeCost(g, "Boutique", "Enclos 3") == 6
  }

  /** The park's list has those three steps, each listed once. */
  lemma ZooRouteSteps()
    ensures RouteSteps(ZooGraph())
  {
    SoleEdgeCost(ZooGraph(), "Enclos 1", "Restaurant", 1);
    SoleEdgeCost(ZooGraph(), "Restaurant", "Boutique", 1);
    SoleEdgeCost(ZooGraph(), "Boutique", "Enclos 3", 2);
  }

  /** In any graph with those three steps, the route is a walk costing 17. */
  lemma RouteCosts17(g: Graph)
    requires RouteSteps(g)
    ensures IsPath(g, ["Enclos 1", "Restaurant", "Boutique", "Enclos 3"], "Enclos 1", "Enclos 3")
    ensures Cost(g, ["Enclos 1", "Restaurant", "Boutique", "Enclos 3"]) == 17
  {
    var w3 := ["Enclos 3"];
    PrependEdge(g, "Boutique", w3);
    var w2 := ["Boutique"] + w3;
    PrependEdge(g, "Restaurant", w2);
    var w1 := ["Restaurant"] + w2;
    PrependEdge(g, "Enclos 1", w1);
    assert ["Enclos 1"] + w1 == ["Enclos 1", "Restaurant", "Boutique", "Enclos 3"];
  }

  /** The route through the restaurant and the shop, at cost 17. */
  lemma Enclos1ToEnclos3Route()
    ensures IsPath(ZooGraph(), ["Enclos 1", "Restaurant", "Boutique", "Enclos 3"], "Enclos 1", "Enclos 3")
    ensures Cost(ZooGraph(), ["Enclos 1", "Restaurant", "Boutique", "Enclos 3"]) == 17
  {
    ZooRouteSteps();
    RouteCosts17(ZooGraph());
  }

  /** A route costing no more than CostToEnclos3 promises only takes tight
      steps; where those are forced, the route is forced. */
  lemma TightRoute(g: Graph, p: seq<string>)
    requires Consistent(g, CostToEnclos3) && TightOnlyAlongRoute(g) && "Enclos 3" !in g
    requires IsPath(g, p, "Enclos 1", "Enclos 3") && Cost(g, p) <= 17
    ensures p == ["Enclos 1", "Restaurant", "Boutique", "Enclos 3"]
  {
    PotentialLowerBound(g, CostToEnclos3, p);
    assert |p| > 1;
    TightWalkHasTightSteps(g, CostToEnclos3, p, 0);
    assert |p| > 2;
    TightWalkHasTightSteps(g, CostToEnclos3, p, 1);
    assert |p| > 3;
    TightWalkHasTightSteps(g, CostToEnclos3, p, 2);
    if |p| > 4 {
      InnerStepHasList(g, p, 3);
    }
  }

  /** The only shortest route from "Enclos 1" to "Enclos 3" is the one
      through the restaurant and the shop, at cost 17. */
  lemma ShortestEnclos1ToEnclos3(p: seq<string>)
    requires IsShortest(ZooGraph(), p, "Enclos 1", "Enclos 3")
    ensures p == ["Enclos 1", "Restaurant", "Boutique", "Enclos 3"]
    ensures Cost(ZooGraph(), p) == 17
  {
    Enclos1ToEnclos3Route();
    CostToEnclos3IsConsistent();
    ZooTightOnlyAlongRoute();
    TightRoute(ZooGraph(), p);
  }

  /** "Enclos 2" is not a key of the park's list: nothing can be reached from it
      but itself. */
  lemma Enclos2ReachesNothingElse(t: string)
    requires t != "Enclos 2"
    ensures !Reachable(ZooGraph(), "Enclos 2", t)
  {
    ClosedSetBlocksReach(ZooGraph(), {"Enclos 2"}, "Enclos 2", t);
  }

  /** A heuristic that estimates more than 5 from "Gare" to "Enclos 1", as the
      straight-line distance between their map positions does, is not
      admissible: the direct edge costs 5. */
  lemma OverestimateAtGareIsInadmissible(h: (string, string) -> int)
    requires h("Gare", "Enclos 1") > 5
    ensures !Admissible(ZooGraph(), h, "Enclos 1")
  {
    var g: Graph := ZooGraph();
    var w := ["Gare", "Enclos 1"];
    assert g["Gare"][0].0 == "Enclos 1";
    assert IsPath(g, w, "Gare", "Enclos 1");
    assert w[1..] == ["Enclos 1"];
    assert EdgeCost(g, "Gare", "Enclos 1") == 5 by {
      var k: int :| 0 <= k < |g["Gare"]| && g["Gare"][k].0 == "Enclos 1" && g["Gare"][k].1 == EdgeCost(g, "Gare", "Enclos 1");
      assert k == 0;
    }
    assert Cost(g, w) == 5;
  }

  /** The query as the park's screens issue it: over the park's own adjacency
      list, with the estimate left as a parameter. */
  method FindShortestPathInZoo(h: (string, string) -> int, start: string, goal: string)
    returns (path: seq<string>)
    ensures path != [] ==> IsPath(ZooGraph(), path, start, goal)
    ensures path == [] <==> !Reachable(ZooGraph(), start, goal)
    ensures start == goal ==> path == [start]
    ensures path != [] && Admissible(ZooGraph(), h, goal) ==> IsShortest(ZooGraph(), path, start, goal)
    ensures Admissible(ZooGraph(), h, goal) && start == "Enclos 1" && goal == "Enclos 3" ==>
              path == ["Enclos 1", "Restaurant", "Boutique", "Enclos 3"] && Cost(ZooGraph(), path) == 17
    // the same for the zero estimate (plain uniform-cost search), stated so that
    // a caller need not establish admissibility itself
    ensures (forall v :: h(v, goal) == 0) && start == "Enclos 1" && goal == "Enclos 3" ==>
              path == ["Enclos 1", "Restaurant", "Boutique", "Enclos 3"] && Cost(ZooGraph(), path) == 17
    ensures start == "Enclos 2" && goal != "Enclos 2" ==> path == []
  {
    path := FindShortestPath(ZooGraph(), h, start, goal);
    if forall v :: h(v, goal) == 0 {
      ZeroHeuristicIsAdmissible(ZooGraph(), h, goal);
    }
    if Admissible(ZooGraph(), h, goal) && start == "Enclos 1" && goal == "Enclos 3" {
      Enclos1ToEnclos3Route();
      ShortestEnclos1ToEnclos3(path);
    }
    if start == "Enclos 2" && goal != "Enclos 2" {
      Enclos2ReachesNothingElse(goal);
    }
  }
}
