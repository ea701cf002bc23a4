# ZooISEN navigation manager — a verified model of the route search

The ZooISEN park app has a navigation object, `NavigationManager`. It holds
a fixed, weighted adjacency list of park locations:
- "Enclos 1", "Gare", "Restaurant", "Boutique";
- "Enclos 2" and "Enclos 3", which appear only as targets.

`findShortestPath(start, goal)` is an A*-style best-first search over that
list. It keeps three pieces of state:
- `openSet`: a list of frontier entries `Node(name, cost, heuristic)`;
- `gScore`: the best-known cost of each location;
- `cameFrom`: the predecessor of each location.

Each round of the loop does the following:
1. It sorts `openSet` stably by cost plus heuristic and removes the head.
2. If the head is the goal, it rebuilds the route by walking `cameFrom`
   back from the goal, placing each predecessor in front.
3. Otherwise it relaxes each listed edge of the popped location. A
   relaxation happens only on a strict improvement: it records the
   predecessor, lowers the best-known cost and appends a new entry to the
   frontier. A location not yet known counts as infinitely far.

When the frontier runs dry, the search returns the empty list.

The project has four modules:
- `walks.dfy` (`Walks`). The graph as `map<string, seq<(string, nat)>>`,
  walks, their cost, reachability, admissible heuristics and consistent
  potentials.
- `open_set.dfy` (`OpenSet`). The frontier record `Node`, its priority, and
  the stable insertion sort that stands for Kotlin's `sortBy`. It proves
  that popping the head of the sorted list yields the first entry of least
  priority.
- `navigation_manager.dfy` (`NavigationManager`). The park's adjacency list
  `ZooGraph`, the search state, one relaxation step `Relax`, the loop
  invariants, and the two methods:
  - `FindShortestPath`, with the same sort-and-pop loop and per-edge
    relaxation loop as the source;
  - `ReconstructPath`, the predecessor walk.
- `zoo_routes.dfy` (`ZooRoutes`). The query on the park's own list, and
  what it answers for the two documented cases.

What is proved about the search, for any graph with positive weights and
any integer-valued estimate:
- the loop terminates, by a measure shown below rather than by assumption;
- a non-empty result is a walk from `start` to `goal`;
- the result is empty exactly when `goal` cannot be reached from `start`;
- `start == goal` yields `[start]`;
- the result is a shortest walk whenever the heuristic is admissible. The
  zero heuristic is one such heuristic.

On the park's list:
- from "Enclos 1" to "Enclos 3", with an admissible heuristic, the only
  answer is `["Enclos 1", "Restaurant", "Boutique", "Enclos 3"]`, at cost
  17;
- from "Enclos 2" any other goal yields `[]`, because "Enclos 2" has no
  list of its own.

The termination measure is the lexicographic triple below. A relaxation
either adds a new location or lowers one cost; a pop that relaxes nothing
shrinks the frontier.
- unknown locations of the graph;
- the sum of the best-known costs;
- the frontier size.

The invariant of the search loop is `SearchInv`. It holds these facts:
- `cameFrom` is a tree rooted at `start`. Each predecessor is joined to
  its location by an edge and is known no dearer than the location less
  that edge. `gScore[start]` stays 0, and `start` never enters `cameFrom`.
- Every frontier entry names a known location. Its cost is no lower than
  that location's best-known cost. It carries the heuristic of its name.
- Every known location is either waiting in the frontier at its
  best-known cost, or fully relaxed.
- Once the goal is known, an entry for it waits in the frontier.

## Model

| member | source | states |
|---|---|---|
| NavigationManager.ZooGraph | app/src/main/java/fr/isen/sannicolas/zooisen/waze/NavigationManager.kt:7-12 | the park's adjacency list: all weights positive; "Enclos 2" and "Enclos 3" have no list of their own |
| NavigationManager.Initial | app/src/main/java/fr/isen/sannicolas/zooisen/waze/NavigationManager.kt:28-30 | the frontier holds only the start at cost 0 with its estimate, no predecessors, and the start's best-known cost is 0 |
| NavigationManager.InitialSatisfiesInv | app/src/main/java/fr/isen/sannicolas/zooisen/waze/NavigationManager.kt:28-30 | the initial state meets the search invariant (tree, entries, frontier completeness, goal pending) |
| NavigationManager.Relax | app/src/main/java/fr/isen/sannicolas/zooisen/waze/NavigationManager.kt:46-53 | after relaxing, the neighbour's cost is at most current cost plus weight, and exactly that on an improvement; costs only go down and only the neighbour's moves; the state changes iff the improvement is strict (unknown neighbour = infinitely far); on change the neighbour's predecessor is `current` and exactly one entry with the new cost and the given estimate is appended |
| NavigationManager.RelaxKeepsTree | app/src/main/java/fr/isen/sannicolas/zooisen/waze/NavigationManager.kt:49-51 | a relaxation along a listed edge keeps `cameFrom` a valid predecessor tree rooted at the start, with the start's cost 0 and the start never given a predecessor |
| NavigationManager.RelaxKeepsEntries | app/src/main/java/fr/isen/sannicolas/zooisen/waze/NavigationManager.kt:52 | a relaxation keeps every frontier entry at or above its location's best-known cost with that location's estimate, and keeps a known goal waiting in the frontier |
| NavigationManager.RelaxKeepsOthers | app/src/main/java/fr/isen/sannicolas/zooisen/waze/NavigationManager.kt:46-54 | a relaxation keeps every other known location waiting at its best cost or fully relaxed |
| NavigationManager.RelaxStep | app/src/main/java/fr/isen/sannicolas/zooisen/waze/NavigationManager.kt:46-54 | relaxing the next listed edge of the popped location extends the scan invariant by one edge |
| NavigationManager.PopStartsScan | app/src/main/java/fr/isen/sannicolas/zooisen/waze/NavigationManager.kt:33-34 | popping a non-goal head of the sorted frontier leaves a state from which its edges can be scanned |
| NavigationManager.ScanDone | app/src/main/java/fr/isen/sannicolas/zooisen/waze/NavigationManager.kt:46-54 | once all edges of the popped location are relaxed, the search invariant holds again |
| NavigationManager.RelaxProgress | app/src/main/java/fr/isen/sannicolas/zooisen/waze/NavigationManager.kt:49-53 | every effective relaxation adds a known location or lowers the sum of costs |
| NavigationManager.IterationDecreases | app/src/main/java/fr/isen/sannicolas/zooisen/waze/NavigationManager.kt:32-55 | one round of the loop lowers (unknown locations, sum of costs, frontier size) lexicographically |
| NavigationManager.ExhaustedMeansUnreachable | app/src/main/java/fr/isen/sannicolas/zooisen/waze/NavigationManager.kt:32-56 | an empty frontier under the invariant means the goal is unreachable from the start |
| NavigationManager.FrontierBound | app/src/main/java/fr/isen/sannicolas/zooisen/waze/NavigationManager.kt:32-55 | along any walk from the start to the goal, under an admissible heuristic, some frontier entry is within the walk's cost or the walk's j-th location is known at no more than its prefix cost |
| NavigationManager.GoalPoppedIsOptimal | app/src/main/java/fr/isen/sannicolas/zooisen/waze/NavigationManager.kt:33-36 | when the goal's entry is popped as a least-priority entry under an admissible heuristic, its best-known cost is at most the cost of any walk from the start |
| NavigationManager.ReconstructPath | app/src/main/java/fr/isen/sannicolas/zooisen/waze/NavigationManager.kt:37-43 | walking predecessors back from the goal and prepending them yields a walk from the start to the goal costing at most the goal's best-known cost; with no predecessor it is `[goal]` |
| NavigationManager.FindShortestPath | app/src/main/java/fr/isen/sannicolas/zooisen/waze/NavigationManager.kt:27-57 | terminates; a non-empty result is a walk from start to goal; empty iff the goal is unreachable; `[start]` when start equals goal; shortest under an admissible heuristic |
| OpenSet.Insert | app/src/main/java/fr/isen/sannicolas/zooisen/waze/NavigationManager.kt:33 | inserting into a sorted frontier yields a sorted permutation of the frontier plus the entry |
| OpenSet.SortByPriority | app/src/main/java/fr/isen/sannicolas/zooisen/waze/NavigationManager.kt:33 | the sorted frontier is a permutation of the frontier, sorted by cost plus estimate |
| OpenSet.InsertKeepsTies | app/src/main/java/fr/isen/sannicolas/zooisen/waze/NavigationManager.kt:33 | inserting an entry puts it in front of every entry of its own priority and leaves the order of the other priority classes alone |
| OpenSet.SortKeepsTies | app/src/main/java/fr/isen/sannicolas/zooisen/waze/NavigationManager.kt:33 | the sort is stable: for every priority, the entries of that priority appear in the same relative order before and after sorting |
| OpenSet.FirstMinimum | app/src/main/java/fr/isen/sannicolas/zooisen/waze/NavigationManager.kt:33-34 | the index of the first entry of least priority: every earlier entry is strictly larger, every later one no smaller |
| OpenSet.SortedHeadIsFirstMinimum | app/src/main/java/fr/isen/sannicolas/zooisen/waze/NavigationManager.kt:33-34 | the stable sort's head is exactly the first entry of least priority |
| OpenSet.SortedHeadIsMinimal | app/src/main/java/fr/isen/sannicolas/zooisen/waze/NavigationManager.kt:33-34 | no frontier entry has a lower priority than the popped head |
| OpenSet.PopKeepsOthers | app/src/main/java/fr/isen/sannicolas/zooisen/waze/NavigationManager.kt:34 | removing the head keeps every other entry, and adds none |
| Walks.EdgeCost | app/src/main/java/fr/isen/sannicolas/zooisen/waze/NavigationManager.kt:46-47 | the cost of a step is the weight of one listed edge to that neighbour, and no listed edge to it is cheaper |
| Walks.ClosedSetBlocksReach | app/src/main/java/fr/isen/sannicolas/zooisen/waze/NavigationManager.kt:56 | nothing outside a set that no listed edge leaves is reachable from inside it |
| Walks.ZeroHeuristicIsAdmissible | app/src/main/java/fr/isen/sannicolas/zooisen/waze/NavigationManager.kt:33 | the zero estimate never overestimates, so the plain uniform-cost search is a special case |
| Walks.ConsistentIsAdmissible | app/src/main/java/fr/isen/sannicolas/zooisen/waze/NavigationManager.kt:33 | an estimate that no edge beats and that is 0 at the goal never overestimates |
| ZooRoutes.CostToEnclos3IsConsistent | app/src/main/java/fr/isen/sannicolas/zooisen/waze/NavigationManager.kt:7-12 | the costs 17, 13, 9, 6, 0 to "Enclos 3" from "Enclos 1", "Gare", "Restaurant", "Boutique", "Enclos 3" are beaten by no edge of the park |
| ZooRoutes.Enclos1ToEnclos3Route | app/src/main/java/fr/isen/sannicolas/zooisen/waze/NavigationManager.kt:8-11 | "Enclos 1", "Restaurant", "Boutique", "Enclos 3" is a walk of the park costing 17 |
| ZooRoutes.ShortestEnclos1ToEnclos3 | app/src/main/java/fr/isen/sannicolas/zooisen/waze/NavigationManager.kt:7-12 | that walk is the only shortest one from "Enclos 1" to "Enclos 3" |
| ZooRoutes.Enclos2ReachesNothingElse | app/src/main/java/fr/isen/sannicolas/zooisen/waze/NavigationManager.kt:7-12 | nothing but itself can be reached from "Enclos 2" |
| ZooRoutes.OverestimateAtGareIsInadmissible | app/src/main/java/fr/isen/sannicolas/zooisen/waze/NavigationManager.kt:9-24 | an estimate above 5 from "Gare" to "Enclos 1", as the straight-line distance between their positions is, is not admissible |
| ZooRoutes.FindShortestPathInZoo | app/src/main/java/fr/isen/sannicolas/zooisen/waze/NavigationManager.kt:27-57 | the query on the park's list: the general guarantees, plus "Enclos 1" to "Enclos 3" under an admissible (in particular the zero) estimate gives the restaurant-and-shop route at cost 17, and "Enclos 2" to anything else gives `[]` |

## Left out

- The straight-line heuristic (`NavigationManager.kt:14-25`) is not modelled
  as a function: it uses `Double` arithmetic and `sqrt`. The search takes the
  estimate as a parameter `h(node, goal)` of type `int`. The model does
  prove that the straight-line estimate is not admissible on the park's
  list: from "Gare" to "Enclos 1" it gives about 53.9, while the edge
  costs 5. Optimality is proved only for admissible estimates.
- Floating point is not modelled. Weights are natural numbers. The search
  requires every weight to be positive, as all of the park's are. The
  `Double.MAX_VALUE` default of `getOrDefault` is modelled as "infinitely
  far". The absorption of `cost + Double.MAX_VALUE` into `Double.MAX_VALUE`
  is not modelled either. When the goal has no position ("Enclos 2",
  "Enclos 3", `NavigationManager.kt:22-23`), every estimate is
  `Double.MAX_VALUE`, every priority is equal, and the stable sort pops the
  frontier first-in first-out. When only a non-goal location has no
  position, only its own entries tie at `Double.MAX_VALUE` and sort last.
  The integer model orders such entries by cost instead.
- NavigationManager.FindShortestPath takes an integer-valued estimate; the
  source's estimates are fractional (about 53.85 from "Gare" to
  "Enclos 1"). A fractional estimate can produce pop orders that no integer
  one gives, so the model does not cover every order the source can
  produce.
- NavigationManager.FindShortestPath does not promise a shortest walk when
  the estimate is inadmissible; the source does not either. Every other
  guarantee holds for any estimate: a non-empty result is a walk from start
  to goal, the result is empty exactly when the goal is unreachable, and
  `start == goal` yields `[start]`.
- NavigationManager.ReconstructPath is a method of its own, where the source
  inlines the predecessor walk in the search loop. Its behaviour is the
  same.
- The source never checks whether `start` or `goal` is a key of the list.
  The model follows that code and has no "node not found" result beside
  an "unreachable" one. A start without an adjacency list yields `[]`
  unless `start == goal`, which yields `[start]` even for an unknown name.
  A goal without an adjacency list is treated like any other goal: `[]`
  exactly when it is unreachable. "Enclos 3" has no list, yet
  "Enclos 1" to "Enclos 3" yields the restaurant-and-shop route.
- The park screen's use of the manager is not modelled:
  - `screens/WazooScreen.kt` imports the object from package `...waze`
    (line 18), but `NavigationManager.kt` declares package `...navigation`
    (line 1);
  - the screen calls `loadGraph` (line 25) and `findShortestPathAStar`
    (line 82), and neither exists in `NavigationManager.kt`;
  - the "❌" result the screen tests for (line 83) is never produced by
    `findShortestPath`.
- The database layer (`database/Database.kt`), the UI, map and
  authentication screens, and the biome images are not part of this model.
  They hold no route logic.
