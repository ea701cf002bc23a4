/**
  The route search of the park's navigation manager: a best-first (A*-style)
  search over a weighted adjacency list. The frontier `openSet` is re-sorted
  by cost plus heuristic estimate on every iteration and its head is popped;
  `gScore` holds the best cost known per location and `cameFrom` the
  predecessor through which it was reached. An edge is relaxed only on strict
  improvement, the search stops when the goal is popped, and the route is
  rebuilt by walking `cameFrom` back from the goal to the start.
 */
module NavigationManager {
  import opened Walks
  import opened OpenSet

  /** The park's fixed adjacency list. */
  function ZooGraph(): (g: Graph)
    ensures PositiveWeights(g)
    ensures "Enclos 2" !in g && "Enclos 3" !in g
  {
    map[
      "Enclos 1" := [("Gare", 5), ("Restaurant", 8)],
      "Gare" := [("Enclos 1", 5), ("Enclos 2", 4), ("Boutique", 7)],
      "Restaurant" := [("Enclos 1", 8), ("Boutique", 3)],
      "Boutique" := [("Gare", 7), ("Restaurant", 3), ("Enclos 3", 6)]
    ]
  }

  /** The three mutable pieces of the search. */
  datatype State = State(openSet: seq<Node>, cameFrom: map<string, string>, gScore: map<string, nat>)

  /** The frontier holds only the start, at cost 0; nothing has a predecessor. */
  function Initial(h: (string, string) -> int, start: string, goal: string): (s: State)
    ensures s.openSet == [Node(start, 0, h(start, goal))]
    ensures s.cameFrom == map[] && s.gScore == map[start := 0]
  {
    State([Node(start, 0, h(start, goal))], map[], map[start := 0])
  }

  /** Going through `current` along `edge` is strictly cheaper than anything
      known for the neighbour; an unknown neighbour counts as infinitely far. */
  predicate Improves(s: State, current: string, edge: Edge)
    requires current in s.gScore
  {
    edge.0 !in s.gScore || s.gScore[current] + edge.1 < s.gScore[edge.0]
  }

  /** One relaxation of the edge `current -> edge.0`, pushing a new frontier
      entry carrying `estimate` when it improves the neighbour. */
  function Relax(s: State, current: string, edge: Edge, estimate: int): (r: State)
    requires current in s.gScore
    // afterwards the edge cannot improve its target any more
    ensures edge.0 in r.gScore && r.gScore[edge.0] <= s.gScore[current] + edge.1
    ensures r.gScore.Keys == s.gScore.Keys + {edge.0}
    // best-known costs only ever go down, and only the neighbour's moves
    ensures forall v :: v in s.gScore ==> r.gScore[v] <= s.gScore[v]
    ensures forall v :: v in s.gScore && v != edge.0 ==> r.gScore[v] == s.gScore[v]
    ensures forall v :: v != edge.0 ==> (v in r.cameFrom <==> v in s.cameFrom)
    ensures forall v :: v != edge.0 && v in s.cameFrom ==> r.cameFrom[v] == s.cameFrom[v]
    // nothing changes unless the improvement is strict
    ensures r != s <==> Improves(s, current, edge)
    // an improvement records the route through `current` and its exact cost
    ensures r != s ==> r.gScore[edge.0] == s.gScore[current] + edge.1
    ensures r != s ==> edge.0 in r.cameFrom && r.cameFrom[edge.0] == current
    ensures r != s ==> r.openSet == s.openSet + [Node(edge.0, r.gScore[edge.0], estimate)]
    ensures r == s ==> r.openSet == s.openSet
  {
    var tentative := s.gScore[current] + edge.1;
    if edge.0 !in s.gScore || tentative < s.gScore[edge.0] then
      State(s.openSet + [Node(edge.0, tentative, estimate)],
            s.cameFrom[edge.0 := current],
            s.gScore[edge.0 := tentative])
    else
      s
  }

  // ---------------------------------------------------------------------
  // Invariants of the search
  // ---------------------------------------------------------------------

  /** `v`'s predecessor is known, reaches `v` by an edge and pays no more than `v`. */
  ghost predicate ParentValid(g: Graph, s: State, v: string) {
    && v in s.cameFrom && v in s.gScore
    && var u := s.cameFrom[v];
       u in s.gScore && IsEdge(g, u, v) && s.gScore[u] + EdgeCost(g, u, v) <= s.gScore[v]
  }

  /** The predecessor map is a tree rooted at `start`, whose cost `0` never moves. */
  ghost predicate TreeValid(g: Graph, start: string, s: State) {
    && start in s.gScore && s.gScore[start] == 0 && start !in s.cameFrom
    && s.gScore.Keys == s.cameFrom.Keys + {start}
    && forall v :: v in s.cameFrom ==> ParentValid(g, s, v)
  }

  /** Every frontier entry names a known location, is not cheaper than its
      best-known cost, and carries the heuristic estimate of that location. */
  ghost predicate EntriesValid(h: (string, string) -> int, goal: string, s: State) {
    forall e :: e in s.openSet ==>
      e.name in s.gScore && s.gScore[e.name] <= e.cost && e.heuristic == h(e.name, goal)
  }

  /** `u` still waits in the frontier at its best-known cost. */
  ghost predicate HasFreshEntry(s: State, u: string) {
    u in s.gScore && exists e :: e in s.openSet && e.name == u && e.cost == s.gScore[u]
  }

  /** `edge` leaving `u` cannot improve its target. */
  ghost predicate RelaxedEdge(s: State, u: string, edge: Edge) {
    u in s.gScore && edge.0 in s.gScore && s.gScore[edge.0] <= s.gScore[u] + edge.1
  }

  /** No edge leaving `u` can improve its target. */
  ghost predicate Relaxed(g: Graph, s: State, u: string) {
    forall k :: 0 <= k < |Adjacent(g, u)| ==> RelaxedEdge(s, u, Adjacent(g, u)[k])
  }

  /** Every known location is either waiting in the frontier or fully relaxed. */
  ghost predicate FrontierComplete(g: Graph, s: State) {
    forall u :: u in s.gScore ==> HasFreshEntry(s, u) || Relaxed(g, s, u)
  }

  /** Once the goal is known, an entry for it stays in the frontier until popped. */
  ghost predicate GoalPending(goal: string, s: State) {
    goal in s.gScore ==> exists e :: e in s.openSet && e.name == goal
  }

  /** The invariant of the search loop. */
  ghost predicate SearchInv(g: Graph, h: (string, string) -> int, start: string, goal: string, s: State) {
    && TreeValid(g, start, s)
    && EntriesValid(h, goal, s)
    && FrontierComplete(g, s)
    && GoalPending(goal, s)
    && s.gScore.Keys <= Universe(g, start)
  }

  /** The invariant while the edges of the popped location `c` are scanned:
      the first `k` of them are relaxed, every other location is as in SearchInv. */
  ghost predicate Scanning(g: Graph, h: (string, string) -> int, start: string, goal: string,
                           s: State, c: string, gc: nat, k: nat) {
    && TreeValid(g, start, s)
    && EntriesValid(h, goal, s)
    && GoalPending(goal, s)
    && s.gScore.Keys <= Universe(g, start)
    && c != goal && c in s.gScore && s.gScore[c] == gc
    && (forall u :: u in s.gScore && u != c ==> HasFreshEntry(s, u) || Relaxed(g, s, u))
    && k <= |Adjacent(g, c)|
    && forall j :: 0 <= j < k ==> RelaxedEdge(s, c, Adjacent(g, c)[j])
  }

  // ---------------------------------------------------------------------
  // Termination measure
  // ---------------------------------------------------------------------

  /** The sum of the best-known costs. */
  ghost function SumValues(m: map<string, nat>): nat
    decreases |m|
  {
    if m == map[] then 0 else
      var k :| k in m;
      m[k] + SumValues(m - {k})
  }

  /** SumValues does not depend on which key it happens to take first. */
  lemma {:induction false} SumValuesRemove(m: map<string, nat>, k: string)
    requires k in m
    ensures SumValues(m) == m[k] + SumValues(m - {k})
    decreases |m|
  {
    var j :| j in m && SumValues(m) == m[j] + SumValues(m - {j});
    if j != k {
      assert |m - {j}| < |m| by { assert (m - {j}).Keys < m.Keys; }
      assert |m - {k}| < |m| by { assert (m - {k}).Keys < m.Keys; }
      SumValuesRemove(m - {j}, k);
      SumValuesRemove(m - {k}, j);
      assert m - {j} - {k} == m - {k} - {j};
    }
  }

  /** Lowering one value lowers the sum. */
  lemma SumValuesDecrease(m: map<string, nat>, k: string, t: nat)
    requires k in m && t < m[k]
    ensures SumValues(m[k := t]) < SumValues(m)
  {
    SumValuesRemove(m, k);
    SumValuesRemove(m[k := t], k);
    assert m[k := t] - {k} == m - {k};
  }

  /** Lexicographic progress: more locations known, or equally many at a lower total cost. */
  ghost predicate Progress(U: set<string>, a: map<string, nat>, b: map<string, nat>) {
    (U - b.Keys < U - a.Keys) || (U - b.Keys == U - a.Keys && SumValues(b) < SumValues(a))
  }

  /** Every effective relaxation makes progress over the state `popped` the scan began from. */
  lemma RelaxProgress(U: set<string>, popped: State, s: State, c: string, edge: Edge, estimate: int)
    requires c in s.gScore && edge.0 in U
    requires s == popped || Progress(U, popped.gScore, s.gScore)
    ensures var r := Relax(s, c, edge, estimate); r == popped || Progress(U, popped.gScore, r.gScore)
  {
    var r := Relax(s, c, edge, estimate);
    if r != s {
      if edge.0 in s.gScore {
        assert r.gScore == s.gScore[edge.0 := r.gScore[edge.0]];
        SumValuesDecrease(s.gScore, edge.0, r.gScore[edge.0]);
        assert U - r.gScore.Keys == U - s.gScore.Keys;
      } else {
        assert edge.0 in U - s.gScore.Keys;
        assert U - r.gScore.Keys < U - s.gScore.Keys;
      }
      assert Progress(U, s.gScore, r.gScore);
    }
  }

  /** One iteration of the search lowers the lexicographic measure
      (unknown locations, sum of best-known costs, frontier size). */
  lemma IterationDecreases(U: set<string>, before: State, popped: State, after: State)
    requires popped.gScore == before.gScore && |popped.openSet| < |before.openSet|
    requires after == popped || Progress(U, popped.gScore, after.gScore)
    ensures || U - after.gScore.Keys < U - before.gScore.Keys
            || (U - after.gScore.Keys == U - before.gScore.Keys &&
                (|| SumValues(after.gScore) < SumValues(before.gScore)
                 || (SumValues(after.gScore) == SumValues(before.gScore) && |after.openSet| < |before.openSet|)))
  {
  }

  // ---------------------------------------------------------------------
  // Lemmas about single steps of the search
  // ---------------------------------------------------------------------

  /** The initial state meets the loop invariant. */
  lemma InitialSatisfiesInv(g: Graph, h: (string, string) -> int, start: string, goal: string)
    ensures SearchInv(g, h, start, goal, Initial(h, start, goal))
  {
    var s := Initial(h, start, goal);
    assert s.openSet[0] in s.openSet;
    assert HasFreshEntry(s, start);
  }

  /** Popping a non-goal head leaves a state from which its edges can be scanned. */
  lemma PopStartsScan(g: Graph, h: (string, string) -> int, start: string, goal: string, s: State)
    requires SearchInv(g, h, start, goal, s) && |s.openSet| > 0
    requires SortByPriority(s.openSet)[0].name != goal
    ensures var sorted := SortByPriority(s.openSet);
            var c := sorted[0].name;
            c in s.gScore &&
            Scanning(g, h, start, goal, s.(openSet := sorted[1..]), c, s.gScore[c], 0)
  {
    var sorted := SortByPriority(s.openSet);
    var c := sorted[0].name;
    var p := s.(openSet := sorted[1..]);
    PopKeepsOthers(s.openSet);
    assert sorted[0] in multiset(s.openSet);
    assert EntriesValid(h, goal, p);
    assert GoalPending(goal, p) by {
      if goal in s.gScore {
        var e :| e in s.openSet && e.name == goal;
        assert e in p.openSet;
      }
    }
    forall u | u in p.gScore && u != c ensures HasFreshEntry(p, u) || Relaxed(g, p, u) {
      if HasFreshEntry(s, u) {
        var e :| e in s.openSet && e.name == u && e.cost == s.gScore[u];
        assert e in p.openSet;
      } else {
        assert Relaxed(g, s, u);
      }
    }
  }

  /** An effective relaxation of an edge leaving `c` keeps the predecessor tree valid. */
  lemma RelaxKeepsTree(g: Graph, start: string, s: State, c: string, edge: Edge, estimate: int)
    requires TreeValid(g, start, s) && c in s.gScore && c in g && edge in g[c]
    ensures TreeValid(g, start, Relax(s, c, edge, estimate))
  {
    var r := Relax(s, c, edge, estimate);
    var v := edge.0;
    if r != s {
      assert v != start;
      var k :| 0 <= k < |g[c]| && g[c][k] == edge;
      assert IsEdge(g, c, v) by {
        assert g[c][k].0 == v;
      }
      assert EdgeCost(g, c, v) <= edge.1;
      assert v != c;
      forall x | x in r.cameFrom ensures ParentValid(g, r, x) {
        if x != v {
          assert ParentValid(g, s, x);
        }
      }
    }
  }

  /** An effective relaxation keeps frontier entries valid and the goal pending. */
  lemma RelaxKeepsEntries(h: (string, string) -> int, goal: string, s: State, c: string, edge: Edge)
    requires EntriesValid(h, goal, s) && GoalPending(goal, s) && c in s.gScore
    ensures var r := Relax(s, c, edge, h(edge.0, goal));
            EntriesValid(h, goal, r) && GoalPending(goal, r)
  {
    var r := Relax(s, c, edge, h(edge.0, goal));
    if r != s {
      var pushed := Node(edge.0, r.gScore[edge.0], h(edge.0, goal));
      assert r.openSet == s.openSet + [pushed];
      assert forall e :: e in r.openSet ==> e in s.openSet || e == pushed;
      if goal in r.gScore {
        if goal == edge.0 {
          assert pushed in r.openSet;
        } else {
          var e :| e in s.openSet && e.name == goal;
          assert e in r.openSet;
        }
      }
    }
  }

  /** An effective relaxation keeps every location other than `c` waiting or relaxed. */
  lemma RelaxKeepsOthers(g: Graph, s: State, c: string, edge: Edge, estimate: int)
    requires c in s.gScore
    requires forall u :: u in s.gScore && u != c ==> HasFreshEntry(s, u) || Relaxed(g, s, u)
    ensures var r := Relax(s, c, edge, estimate);
            forall u :: u in r.gScore && u != c ==> HasFreshEntry(r, u) || Relaxed(g, r, u)
  {
    var r := Relax(s, c, edge, estimate);
    var v := edge.0;
    if r != s {
      var pushed := Node(v, r.gScore[v], estimate);
      assert r.openSet == s.openSet + [pushed];
      forall u | u in r.gScore && u != c ensures HasFreshEntry(r, u) || Relaxed(g, r, u) {
        if u == v {
          assert pushed in r.openSet;
        } else if HasFreshEntry(s, u) {
          var e :| e in s.openSet && e.name == u && e.cost == s.gScore[u];
          assert e in r.openSet;
        } else {
          assert Relaxed(g, s, u);
          forall j | 0 <= j < |Adjacent(g, u)| ensures RelaxedEdge(r, u, Adjacent(g, u)[j]) {
            assert RelaxedEdge(s, u, Adjacent(g, u)[j]);
          }
        }
      }
    }
  }

  /** Relaxing the next edge of the popped location keeps the scan invariant. */
  lemma RelaxStep(g: Graph, h: (string, string) -> int, start: string, goal: string,
                  s: State, c: string, gc: nat, k: nat)
    requires Scanning(g, h, start, goal, s, c, gc, k) && k < |Adjacent(g, c)|
    ensures var edge := Adjacent(g, c)[k];
            Scanning(g, h, start, goal, Relax(s, c, edge, h(edge.0, goal)), c, gc, k + 1)
  {
    var edge := Adjacent(g, c)[k];
    var r := Relax(s, c, edge, h(edge.0, goal));
    assert c in g && edge == g[c][k] && edge in g[c];
    assert edge.0 in Universe(g, start);
    RelaxKeepsTree(g, start, s, c, edge, h(edge.0, goal));
    RelaxKeepsEntries(h, goal, s, c, edge);
    RelaxKeepsOthers(g, s, c, edge, h(edge.0, goal));
    assert r.gScore[c] == gc;
    forall j | 0 <= j < k + 1 ensures RelaxedEdge(r, c, Adjacent(g, c)[j]) {
      if j < k {
        assert RelaxedEdge(s, c, Adjacent(g, c)[j]);
      }
    }
  }

  /** Once every edge of the popped location is relaxed, the loop invariant holds again. */
  lemma ScanDone(g: Graph, h: (string, string) -> int, start: string, goal: string,
                 s: State, c: string, gc: nat)
    requires Scanning(g, h, start, goal, s, c, gc, |Adjacent(g, c)|)
    ensures SearchInv(g, h, start, goal, s)
  {
    assert Relaxed(g, s, c);
  }

  /** When the frontier runs dry, the known locations form a closed set that
      holds the start but not the goal: the goal is unreachable. */
  lemma ExhaustedMeansUnreachable(g: Graph, h: (string, string) -> int, start: string, goal: string, s: State)
    requires SearchInv(g, h, start, goal, s) && s.openSet == []
    ensures !Reachable(g, start, goal)
  {
    forall u, k | u in s.gScore.Keys && u in g && 0 <= k < |g[u]| ensures g[u][k].0 in s.gScore.Keys {
      assert !HasFreshEntry(s, u);
      assert RelaxedEdge(s, u, Adjacent(g, u)[k]);
    }
    ClosedSetBlocksReach(g, s.gScore.Keys, start, goal);
  }

  /** A location of a route that still waits in the frontier has an entry whose
      priority is within the route's cost, given that it is known no dearer
      than the route pays to get there. */
  lemma FreshEntryWithinRoute(g: Graph, h: (string, string) -> int, goal: string,
                              s: State, w: seq<string>, i: nat)
    requires EntriesValid(h, goal, s) && Admissible(g, h, goal)
    requires IsWalk(g, w) && i < |w| && w[|w| - 1] == goal
    requires HasFreshEntry(s, w[i]) && IsWalk(g, w[..i + 1]) && s.gScore[w[i]] <= Cost(g, w[..i + 1])
    ensures exists e :: e in s.openSet && Priority(e) <= Cost(g, w)
  {
    CostSplit(g, w, i);
    var e :| e in s.openSet && e.name == w[i] && e.cost == s.gScore[w[i]];
    assert IsPath(g, w[i..], w[i], goal);
    assert Priority(e) <= Cost(g, w);
  }

  /** The step after a relaxed location of a route is known no dearer than
      the route pays to get there. */
  lemma RelaxedStepWithinRoute(g: Graph, s: State, w: seq<string>, i: nat)
    requires IsWalk(g, w) && i + 1 < |w|
    requires w[i] in s.gScore && Relaxed(g, s, w[i])
    requires IsWalk(g, w[..i + 1]) && s.gScore[w[i]] <= Cost(g, w[..i + 1])
    ensures w[i + 1] in s.gScore && IsWalk(g, w[..i + 2]) && s.gScore[w[i + 1]] <= Cost(g, w[..i + 2])
  {
    var u := w[i];
    CostSplit(g, w, i + 1);
    assert IsEdge(g, u, w[i + 1]);
    var k :| 0 <= k < |g[u]| && g[u][k].0 == w[i + 1] && g[u][k].1 == EdgeCost(g, u, w[i + 1]);
    assert RelaxedEdge(s, u, Adjacent(g, u)[k]);
    var pre := w[..i + 2];
    CostSplit(g, pre, i);
    assert pre[..i + 1] == w[..i + 1];
    assert pre[i..] == [u, w[i + 1]];
    assert [u, w[i + 1]][1..] == [w[i + 1]];
  }

  /** Walking any route from the start, either some frontier entry's priority
      is already within that route's cost, or the route's `j`-th location is
      known at no more than what the route pays to get there. */
  lemma {:induction false} FrontierBound(g: Graph, h: (string, string) -> int, start: string, goal: string,
                                         s: State, w: seq<string>, j: nat)
    requires SearchInv(g, h, start, goal, s) && Admissible(g, h, goal)
    requires IsPath(g, w, start, goal) && j < |w|
    ensures || (exists e :: e in s.openSet && Priority(e) <= Cost(g, w))
            || (w[j] in s.gScore && IsWalk(g, w[..j + 1]) && s.gScore[w[j]] <= Cost(g, w[..j + 1]))
    decreases j
  {
    CostSplit(g, w, j);
    if j > 0 {
      FrontierBound(g, h, start, goal, s, w, j - 1);
      var u := w[j - 1];
      if !exists e :: e in s.openSet && Priority(e) <= Cost(g, w) {
        assert u in s.gScore && IsWalk(g, w[..j]) && s.gScore[u] <= Cost(g, w[..j]);
        if HasFreshEntry(s, u) {
          FreshEntryWithinRoute(g, h, goal, s, w, j - 1);
          assert false;
        }
        RelaxedStepWithinRoute(g, s, w, j - 1);
      }
    }
  }

  /** With an admissible heuristic, the best-known cost of a popped goal is
      no more than the cost of any route from the start. */
  lemma GoalPoppedIsOptimal(g: Graph, h: (string, string) -> int, start: string, goal: string,
                            s: State, p: Node, w: seq<string>)
    requires SearchInv(g, h, start, goal, s) && Admissible(g, h, goal)
    requires p in s.openSet && p.name == goal
    requires forall e :: e in s.openSet ==> Priority(p) <= Priority(e)
    requires IsPath(g, w, start, goal)
    ensures goal in s.gScore && s.gScore[goal] <= Cost(g, w)
  {
    FrontierBound(g, h, start, goal, s, w, |w| - 1);
    assert w[..|w|] == w;
  }

  // ---------------------------------------------------------------------
  // The search
  // ---------------------------------------------------------------------

  /** Rebuilds the route by walking the predecessors back from the goal and
      putting each one in front: the result is a walk from the start to the
      goal that costs no more than the goal's best-known cost. */
  method ReconstructPath(g: Graph, start: string, goal: string, s: State) returns (path: seq<string>)
    requires PositiveWeights(g) && TreeValid(g, start, s) && goal in s.gScore
    ensures IsPath(g, path, start, goal)
    ensures Cost(g, path) <= s.gScore[goal]
    ensures goal !in s.cameFrom ==> path == [goal]
  {
    path := [goal];
    var step := goal;
    while step in s.cameFrom
      invariant step in s.gScore
      invariant IsPath(g, path, step, goal)
      invariant Cost(g, path) + s.gScore[step] <= s.gScore[goal]
      invariant goal !in s.cameFrom ==> path == [goal]
      decreases s.gScore[step]
    {
      ghost var next := step;
      assert ParentValid(g, s, next);
      step := s.cameFrom[step];
      EdgeCostPositive(g, step, next);
      PrependEdge(g, step, path);
      path := [step] + path;
    }
  }

  /** The shortest-route query between two park locations. */
  method FindShortestPath(g: Graph, h: (string, string) -> int, start: string, goal: string)
    returns (path: seq<string>)
    requires PositiveWeights(g)
    ensures path != [] ==> IsPath(g, path, start, goal)
    ensures path == [] <==> !Reachable(g, start, goal)
    ensures start == goal ==> path == [start]
    ensures path != [] && Admissible(g, h, goal) ==> IsShortest(g, path, start, goal)
  {
    var st := Initial(h, start, goal);
    ghost var universe := Universe(g, start);
    InitialSatisfiesInv(g, h, start, goal);

    while st.openSet != []
      invariant SearchInv(g, h, start, goal, st)
      decreases universe - st.gScore.Keys, SumValues(st.gScore), |st.openSet|
    {
      ghost var before := st;
      var sorted := SortByPriority(st.openSet);
      var current := sorted[0];
      st := st.(openSet := sorted[1..]);
      PopKeepsOthers(before.openSet);
      assert current in before.openSet by {
        assert current in multiset(sorted);
      }

      if current.name == goal {
        SortedHeadIsMinimal(before.openSet);
        forall w | Admissible(g, h, goal) && IsPath(g, w, start, goal)
          ensures st.gScore[goal] <= Cost(g, w)
        {
          GoalPoppedIsOptimal(g, h, start, goal, before, current, w);
        }
        path := ReconstructPath(g, start, goal, st);
        assert IsPath(g, path, start, goal);
        PathWitnessesReach(g, path, start, goal);
        assert Admissible(g, h, goal) ==> IsShortest(g, path, start, goal);
        return;
      }

      PopStartsScan(g, h, start, goal, before);
      var edges := Adjacent(g, current.name);
      ghost var gc := st.gScore[current.name];
      ghost var popped := st;
      for k := 0 to |edges|
        invariant Scanning(g, h, start, goal, st, current.name, gc, k)
        invariant st == popped || Progress(universe, popped.gScore, st.gScore)
      {
        var next := Relax(st, current.name, edges[k], h(edges[k].0, goal));
        RelaxStep(g, h, start, goal, st, current.name, gc, k);
        assert current.name in g;
        RelaxProgress(universe, popped, st, current.name, edges[k], h(edges[k].0, goal));
        st := next;
      }
      ScanDone(g, h, start, goal, st, current.name, gc);
      IterationDecreases(universe, before, popped, st);
    }
    ExhaustedMeansUnreachable(g, h, start, goal, st);
    assert start != goal by {
      assert IsPath(g, [start], start, start);
    }
    path := [];
  }
}
