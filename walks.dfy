/**
  Weighted adjacency lists of park locations, walks along them, the cost of a
  walk and reachability. This is the vocabulary in which the route search of
  NavigationManager is specified.
 */
module Walks {

  /** One adjacency-list entry: the neighbour's name and the edge weight. */
  type Edge = (string, nat)

  /** Location name to its outgoing edges, in the order they are listed. */
  type Graph = map<string, seq<Edge>>

  /** Every listed edge has a strictly positive weight. */
  predicate PositiveWeights(g: Graph) {
    forall u, k :: u in g && 0 <= k < |g[u]| ==> g[u][k].1 > 0
  }

  /** The outgoing edges of `u`; a name that is not a key has none. */
  function Adjacent(g: Graph, u: string): (es: seq<Edge>)
    ensures u in g ==> es == g[u]
    ensures u !in g ==> es == []
  {
    if u in g then g[u] else []
  }

  /** The list `es` holds at least one edge to `v`. */
  predicate ListsTarget(es: seq<Edge>, v: string) {
    exists k :: 0 <= k < |es| && es[k].0 == v
  }

  /** `u -> v` is an edge of `g`. */
  predicate IsEdge(g: Graph, u: string, v: string) {
    u in g && ListsTarget(g[u], v)
  }

  /** The smallest weight among the edges of `es` that lead to `v`. */
  function MinWeight(es: seq<Edge>, v: string): (r: nat)
    requires ListsTarget(es, v)
    ensures exists k :: 0 <= k < |es| && es[k].0 == v && es[k].1 == r
    ensures forall k :: 0 <= k < |es| && es[k].0 == v ==> r <= es[k].1
    decreases |es|
  {
    if es[0].0 != v then
      assert ListsTarget(es[1..], v) by {
        var k :| 0 <= k < |es| && es[k].0 == v;
        assert es[1..][k - 1].0 == v;
      }
      MinWeight(es[1..], v)
    else if ListsTarget(es[1..], v) then
      var rest := MinWeight(es[1..], v);
      if es[0].1 <= rest then es[0].1 else rest
    else
      es[0].1
  }

  /** The cost of stepping from `u` to `v`: its cheapest parallel edge. */
  function EdgeCost(g: Graph, u: string, v: string): (r: nat)
    requires IsEdge(g, u, v)
    ensures exists k :: 0 <= k < |g[u]| && g[u][k].0 == v && g[u][k].1 == r
    ensures forall k :: 0 <= k < |g[u]| && g[u][k].0 == v ==> r <= g[u][k].1
  {
    MinWeight(g[u], v)
  }

  /** Every consecutive pair of `w` is an edge of `g`. */
  predicate IsWalk(g: Graph, w: seq<string>) {
    forall i :: 0 <= i < |w| - 1 ==> IsEdge(g, w[i], w[i + 1])
  }

  /** `w` is a walk that starts at `s` and ends at `t`. */
  predicate IsPath(g: Graph, w: seq<string>, s: string, t: string) {
    |w| > 0 && w[0] == s && w[|w| - 1] == t && IsWalk(g, w)
  }

  /** The total weight of a walk. */
  function Cost(g: Graph, w: seq<string>): nat
    requires IsWalk(g, w)
    decreases |w|
  {
    if |w| < 2 then 0 else EdgeCost(g, w[0], w[1]) + Cost(g, w[1..])
  }

  /** `t` can be reached from `s` by following adjacency lists. */
  ghost predicate Reachable(g: Graph, s: string, t: string) {
    exists w :: IsPath(g, w, s, t)
  }

  /** `p` is a walk from `s` to `t` that no other such walk undercuts. */
  ghost predicate IsShortest(g: Graph, p: seq<string>, s: string, t: string) {
    IsPath(g, p, s, t) && forall w :: IsPath(g, w, s, t) ==> Cost(g, p) <= Cost(g, w)
  }

  /** No edge leaves the set `S`. */
  predicate Closed(g: Graph, S: set<string>) {
    forall u, k :: u in S && u in g && 0 <= k < |g[u]| ==> g[u][k].0 in S
  }

  /** Every name the graph mentions, together with `start`. */
  ghost function Universe(g: Graph, start: string): (U: set<string>)
    ensures start in U && g.Keys <= U
    ensures forall u, k :: u in g && 0 <= k < |g[u]| ==> g[u][k].0 in U
  {
    {start} + g.Keys + set u, k | u in g && 0 <= k < |g[u]| :: g[u][k].0
  }

  /** A heuristic never overestimates what remains: at the goal it is not
      negative, and from any `v` it is at most the cost of any walk to the goal. */
  ghost predicate Admissible(g: Graph, h: (string, string) -> int, goal: string) {
    h(goal, goal) >= 0 && forall v, w :: IsPath(g, w, v, goal) ==> h(v, goal) <= Cost(g, w)
  }

  /** A potential that no edge can beat: `phi(u) <= weight + phi(v)` for every edge `u -> v`. */
  ghost predicate Consistent(g: Graph, phi: string -> int) {
    forall u, k :: u in g && 0 <= k < |g[u]| ==> phi(u) <= g[u][k].1 + phi(g[u][k].0)
  }

  // ---------------------------------------------------------------------
  // Lemmas
  // ---------------------------------------------------------------------

  /** A walk that starts inside a closed set never leaves it. */
  lemma {:induction false} ClosedSetTrapsWalk(g: Graph, S: set<string>, w: seq<string>)
    requires Closed(g, S) && IsWalk(g, w) && |w| > 0 && w[0] in S
    ensures w[|w| - 1] in S
    decreases |w|
  {
    if |w| > 1 {
      assert IsEdge(g, w[0], w[1]);
      var k :| 0 <= k < |g[w[0]]| && g[w[0]][k].0 == w[1];
      assert w[1] in S;
      TailIsWalk(g, w);
      ClosedSetTrapsWalk(g, S, w[1..]);
    }
  }

  /** A closed set that holds `s` but not `t` separates them. */
  lemma ClosedSetBlocksReach(g: Graph, S: set<string>, s: string, t: string)
    requires Closed(g, S) && s in S && t !in S
    ensures !Reachable(g, s, t)
  {
    if Reachable(g, s, t) {
      var w :| IsPath(g, w, s, t);
      ClosedSetTrapsWalk(g, S, w);
    }
  }

  /** A walk is reachable evidence for its own endpoints. */
  lemma PathWitnessesReach(g: Graph, w: seq<string>, s: string, t: string)
    requires IsPath(g, w, s, t)
    ensures Reachable(g, s, t)
  {
  }

  /** The tail of a walk is a walk. */
  lemma TailIsWalk(g: Graph, w: seq<string>)
    requires IsWalk(g, w) && |w| > 0
    ensures IsWalk(g, w[1..])
  {
    forall i | 0 <= i < |w[1..]| - 1 ensures IsEdge(g, w[1..][i], w[1..][i + 1]) {
      assert IsEdge(g, w[i + 1], w[i + 2]);
    }
  }

  /** Putting an edge in front of a walk adds that edge's cost. */
  lemma PrependEdge(g: Graph, u: string, w: seq<string>)
    requires IsWalk(g, w) && |w| > 0 && IsEdge(g, u, w[0])
    ensures IsWalk(g, [u] + w)
    ensures Cost(g, [u] + w) == EdgeCost(g, u, w[0]) + Cost(g, w)
  {
    var p := [u] + w;
    forall i | 0 <= i < |p| - 1 ensures IsEdge(g, p[i], p[i + 1]) {
      if i > 0 {
        assert IsEdge(g, w[i - 1], w[i]);
      }
    }
    assert p[1..] == w;
  }

  /** Every location of a walk but the last has an adjacency list, so one
      without a list can only end a walk. */
  lemma InnerStepHasList(g: Graph, w: seq<string>, i: nat)
    requires IsWalk(g, w) && i < |w| - 1
    ensures w[i] in g
  {
    assert IsEdge(g, w[i], w[i + 1]);
  }

  /** When only one entry of `u`'s list leads to `v`, its weight is the step's cost. */
  lemma SoleEdgeCost(g: Graph, u: string, v: string, k: nat)
    requires u in g && k < |g[u]| && g[u][k].0 == v
    requires forall j :: 0 <= j < |g[u]| && j != k ==> g[u][j].0 != v
    ensures IsEdge(g, u, v) && EdgeCost(g, u, v) == g[u][k].1
  {
    assert ListsTarget(g[u], v);
  }

  /** With positive weights every step costs something. */
  lemma EdgeCostPositive(g: Graph, u: string, v: string)
    requires PositiveWeights(g) && IsEdge(g, u, v)
    ensures EdgeCost(g, u, v) > 0
  {
    var k :| 0 <= k < |g[u]| && g[u][k].0 == v && g[u][k].1 == EdgeCost(g, u, v);
    assert g[u][k].1 > 0;
  }

  /** Every prefix and every suffix of a walk is a walk. */
  lemma SliceIsWalk(g: Graph, w: seq<string>, j: nat)
    requires IsWalk(g, w) && j < |w|
    ensures IsWalk(g, w[..j + 1]) && IsWalk(g, w[j..])
  {
    var prefix, suffix := w[..j + 1], w[j..];
    forall i | 0 <= i < |prefix| - 1 ensures IsEdge(g, prefix[i], prefix[i + 1]) {
      assert IsEdge(g, w[i], w[i + 1]);
    }
    forall i | 0 <= i < |suffix| - 1 ensures IsEdge(g, suffix[i], suffix[i + 1]) {
      assert IsEdge(g, w[i + j], w[i + j + 1]);
    }
  }

  /** Any walk splits at an inner node into a prefix and a suffix walk whose
      costs add up to the whole. */
  lemma {:induction false} CostSplit(g: Graph, w: seq<string>, j: nat)
    requires IsWalk(g, w) && j < |w|
    ensures IsWalk(g, w[..j + 1]) && IsWalk(g, w[j..])
    ensures Cost(g, w) == Cost(g, w[..j + 1]) + Cost(g, w[j..])
    decreases j
  {
    SliceIsWalk(g, w, j);
    if j == 0 {
      assert w[0..] == w;
    } else {
      var t := w[1..];
      TailIsWalk(g, w);
      CostSplit(g, t, j - 1);
      assert t[..j] == w[..j + 1][1..];
      assert t[j - 1..] == w[j..];
    }
  }

  /** Along any walk a consistent potential drops by at most the walk's cost. */
  lemma {:induction false} PotentialLowerBound(g: Graph, phi: string -> int, w: seq<string>)
    requires Consistent(g, phi) && IsWalk(g, w) && |w| > 0
    ensures phi(w[0]) - phi(w[|w| - 1]) <= Cost(g, w)
    decreases |w|
  {
    if |w| > 1 {
      var t := w[1..];
      TailIsWalk(g, w);
      PotentialLowerBound(g, phi, t);
      assert IsEdge(g, w[0], w[1]);
      var k :| 0 <= k < |g[w[0]]| && g[w[0]][k].0 == w[1] && g[w[0]][k].1 == EdgeCost(g, w[0], w[1]);
      assert phi(w[0]) <= EdgeCost(g, w[0], w[1]) + phi(w[1]);
    }
  }

  /** A walk whose cost meets the potential bound exactly uses only tight
      steps: each one lowers the potential by exactly its cost. */
  lemma {:induction false} TightWalkHasTightSteps(g: Graph, phi: string -> int, w: seq<string>, i: nat)
    requires Consistent(g, phi) && IsWalk(g, w) && |w| > 0
    requires Cost(g, w) == phi(w[0]) - phi(w[|w| - 1])
    requires i < |w| - 1
    ensures phi(w[i]) == EdgeCost(g, w[i], w[i + 1]) + phi(w[i + 1])
    decreases i
  {
    var t := w[1..];
    TailIsWalk(g, w);
    PotentialLowerBound(g, phi, t);
    assert IsEdge(g, w[0], w[1]);
    var k :| 0 <= k < |g[w[0]]| && g[w[0]][k].0 == w[1] && g[w[0]][k].1 == EdgeCost(g, w[0], w[1]);
    assert phi(w[0]) <= EdgeCost(g, w[0], w[1]) + phi(w[1]);
    if i > 0 {
      TightWalkHasTightSteps(g, phi, t, i - 1);
    }
  }

  /** A consistent heuristic that is zero at the goal is admissible. */
  lemma ConsistentIsAdmissible(g: Graph, h: (string, string) -> int, goal: string)
    requires Consistent(g, v => h(v, goal)) && h(goal, goal) == 0
    ensures Admissible(g, h, goal)
  {
    forall v, w | IsPath(g, w, v, goal) ensures h(v, goal) <= Cost(g, w) {
      PotentialLowerBound(g, v => h(v, goal), w);
    }
  }

  /** The zero heuristic, which turns the search into uniform-cost search, is admissible. */
  lemma ZeroHeuristicIsAdmissible(g: Graph, h: (string, string) -> int, goal: string)
    requires forall v :: h(v, goal) == 0
    ensures Admissible(g, h, goal)
  {
    ConsistentIsAdmissible(g, h, goal);
  }
}
