# AO* solving of an explicit AND/OR graph, in Dafny

This project models `aostar.py`, which finds a minimum-cost solution of an explicit, acyclic AND/OR graph in two passes over the graph.

- **Cost propagation** (`compute_cost`) runs recursively in post-order. A node without successors costs 0 whatever its declared type. An AND node costs the sum of its successors' costs. Any other node is treated as OR and costs their minimum. Every computed cost is written into the node's cost slot.
- **Solution extraction** (`build_solution`) walks the graph again from the start node. It appends nodes to a list in preorder. At an AND node it descends into every successor, in order. At an OR node it descends only into the first successor whose recorded cost is strictly smallest.
- **The driver** (`ao_star_search`) resets every cost slot to `None`, runs both passes from the start node and returns `(best_cost, solution)`.

Layout:

- `wrappers.dfy` (module `Wrappers`): `Option`, used for the cost slots. `None` means reset and not yet computed.
- `graph.dfy` (module `AndOrGraph`): the graph.
  - A `Graph` holds the ordered successor list of every node (`succ`) and the declared node types (`types`).
  - `TypeOf` returns the declared type, or OR when there is none.
  - `WellFormed` says that every successor is a node of the graph. It also says that a ghost `rank` map strictly decreases along every edge, which makes the graph acyclic.
  - `Reach` gives the set of nodes reachable from a node.
  - `Sum` and `Min` are Python's `sum` and `min`.
- `cost.dfy` (module `CostSpec`): `Cost`, the pure recursive specification of `compute_cost`, and the lemmas about it.
- `solution.dfy` (module `SolutionSpec`): `Solution`, the pure recursive specification of `build_solution` for given cost slots. It uses `LeftmostMin`, which picks the index a left-to-right scan with strict `<` settles on. The lemmas about extraction live here too.
- `aostar.dfy` (module `AoStar`): the class `AoGraph`.
  - The class holds the graph, a ghost rank and the mutable map of cost slots.
  - Its methods are the driver `Search` (which calls `ResetCosts`), `ComputeCost` and `BuildSolution`.
  - Each method is proved against the specification functions.
  - `RunSample` runs the search on the demonstration graph.

Every method is recursive or loops exactly where the source does. Three loops and one branch are written as helper methods of their own, which keeps each proof small:
- `ComputeChildCosts` is the loop of `compute_cost` that builds `child_costs`.
- `BuildAll` is the loop of `build_solution` over an AND node's successors.
- `ChooseChild` is the scan loop of `build_solution` over an OR node's successors.
- `BuildChosen` is the OR branch of `build_solution`: the scan, then the recursive call on the chosen successor.

The solution list the source appends to is modelled as an accumulator that goes in and comes back out. `BuildSolution` guarantees `out == solution + Solution(...)`, so earlier entries are never removed or reordered.

Two facts follow from the model and are proved:
- Every node costs 0 (`CostSpec.CostIsZero`), because leaves cost 0 and both sum and min of zeros are 0.
- As a consequence, once costs have been propagated, all successors of an OR node tie. The strict `<` then always keeps the first successor (`SolutionSpec.OrChoiceIsFirstAfterPropagation`).

What the source does not check, and how the model treats it:
- The source has no explicit checks for an unknown start node, a cycle or an unpopulated slot. The model makes each of these a precondition: the start node is in the graph, the graph is acyclic, and the slots are populated before extraction. What the source does in each case instead is listed under "## Left out".
- A node shared by several paths is recomputed, and its slot is rewritten with the same value each time. So a slot may be written more than once in one run.

## Model

| member | source | states |
|---|---|---|
| AndOrGraph.TypeOf | aostar.py:26 | the type read with default `'OR'`: a node is AND exactly when it is declared AND, and a missing type means OR (a definition without a contract of its own; also used at aostar.py:52) |
| AndOrGraph.Sum | aostar.py:35 | Python's `sum` over the child costs as a left fold starting at 0 (a definition without a contract of its own; `SumOfZeros` and `AndCostIsSum` are stated about it) |
| AndOrGraph.Min | aostar.py:40 | the minimum of a non-empty list of child costs is no larger than any element and equals one of them |
| AndOrGraph.SumOfZeros | aostar.py:35 | the sum of a list of zero costs is 0 |
| CostSpec.Cost | aostar.py:16-42 | the cost `compute_cost` returns: 0 for a leaf, the sum of the successors' costs for an AND node, their minimum for any other node. A definition without a contract of its own: `ComputeCost` is proved to return it, and `AndCostIsSum`, `OrCostIsMin` and `CostIsZero` state its properties |
| CostSpec.ChildCosts | aostar.py:28-31 | `child_costs` has one entry per successor, and entry j is the cost of successor j (successor order is kept) |
| CostSpec.AndCostIsSum | aostar.py:33-37 | an AND node's cost is the sum of its successors' costs, in successor order |
| CostSpec.OrCostIsMin | aostar.py:38-42 | a node not declared AND, with successors, costs no more than any successor, and exactly what one of them costs |
| CostSpec.CostIsZero | aostar.py:16-42 | every computed cost is 0, in particular never negative (leaves are 0; sum and min keep 0) |
| SolutionSpec.Slots | aostar.py:63 | the values read from the successors' cost slots, one per successor in order (a definition without a contract of its own; `ChooseChild` is proved to scan it) |
| SolutionSpec.LeftmostMin | aostar.py:60-66 | the scan with strict `<` returns an index whose value is minimal, and every earlier value is strictly larger |
| SolutionSpec.Solution | aostar.py:45-50 | the extracted list is non-empty and starts with the node extraction started from |
| SolutionSpec.SolutionWithinReach | aostar.py:44-68 | every node extraction appends is reachable from the node it started from |
| SolutionSpec.SolutionAll | aostar.py:54-57 | the definition of the AND branch of extraction: the solutions below each successor, appended one after the other in successor order (no contract of its own; its properties are `SolutionAllAppend` and `SolutionAllAt`) |
| SolutionSpec.SolutionAllAppend | aostar.py:56-57 | extraction below a list of successors splits at any point: what is extracted below the first part comes first, then what is extracted below the rest |
| SolutionSpec.SolutionAllAt | aostar.py:56-57 | for every position j, extraction below a list of successors lists the solutions below the earlier successors, then successor j's own full solution, then the solutions below the later successors |
| SolutionSpec.AndSolutionTakesAllChildren | aostar.py:54-57 | at an AND node the solution is the node followed by the full solution of every successor in successor order: for each successor j, the solutions below successors before j, then j's solution, then those below successors after j; repeats are not removed |
| SolutionSpec.OrSolutionTakesLeftmostMin | aostar.py:58-68 | at any other node with successors the solution is the node followed by the solution of exactly one successor: the first one with the strictly smallest recorded cost |
| SolutionSpec.OrChoiceIsOptimal | aostar.py:58-68 | after propagation, the successor chosen at an OR node costs exactly what the OR node costs |
| SolutionSpec.OrChoiceIsFirstAfterPropagation | aostar.py:59-68 | after propagation all successors of an OR node tie at 0, so extraction always descends into the first successor |
| AoStar.AoGraph.ResetCosts | aostar.py:4-6 | afterwards every node of the graph, and nothing else, has the slot `None` |
| AoStar.AoGraph.ComputeCost | aostar.py:16-42 | returns `Cost(node)` and stores exactly that value in the node's slot; every node reachable from it has its cost written in its slot, and no other slot changes |
| AoStar.AoGraph.ComputeChildCosts | aostar.py:28-31 | returns the successors' costs in order and fills the slots of everything reachable from them |
| AoStar.AoGraph.ChooseChild | aostar.py:59-66 | the scan over an OR node's successors, starting from an infinite bound (`None`) and replacing it only on strict `<`, returns the leftmost index with the minimal slot value |
| AoStar.AoGraph.BuildSolution | aostar.py:44-68 | appends exactly `Solution(node)` to the accumulator and leaves its earlier entries in place |
| AoStar.AoGraph.BuildChosen | aostar.py:58-68 | at any other node with successors, appends the rest of the node's solution: the solution of the successor the scan chooses, and nothing else |
| AoStar.AoGraph.BuildAll | aostar.py:54-57 | at an AND node, appends the solutions of all successors in successor order |
| AoStar.AoGraph.Search | aostar.py:3-14 | `best_cost` is the start node's cost, which is 0. Afterwards every node reachable from the start holds its cost and every other node holds `None`. The solution is `Solution(start)` over those slots. |
| AoStar.AoGraph.SearchTwice | aostar.py:3-14 | running the search twice on the same graph returns the same pair both times, `(0, Solution(start))`, because the reset makes each run independent of earlier slot contents; afterwards the graph is still valid and the slots are exactly those one search leaves (reachable nodes hold their cost, the rest `None`) |
| AoStar.SampleGraph | aostar.py:71-79 | the demonstration graph: A (OR) with successors B then C, B (AND) with successor D, and C (OR) and D (AND) as leaves (a definition without a contract of its own; `SampleWellFormed` shows it is acyclic and that everything is reachable from A) |
| AoStar.RunSample | aostar.py:70-81 | the demonstration graph (A OR over B AND and C; B over D) gives cost 0 and solution `[A, B, D]`, because the tie at A goes to the earlier successor B |
| AoStar.SampleSolution | aostar.py:71-79 | with all slots at 0, extraction from A on the demonstration graph lists A, B, D |

## Left out

- The networkx `DiGraph` API is not modelled (`successors`, node attribute dictionaries, `add_node`, `add_edge`). It is replaced by explicit maps of successor lists and node types.
- The `cost_key` parameter is not modelled. The model has one cost slot per node, kept apart from the node types. This matches every key except `'node_type'`.
- The key collision `cost_key='node_type'` is not modelled. With that key the reset at aostar.py:5-6 overwrites every node type with `None`, and aostar.py:22, 36 and 41 then overwrite it with a cost. So the type reads at aostar.py:26 and 52 never see `'AND'`, and every node behaves as OR. For example, an AND node over two leaves X and Y gives `[n, X]` in the source, while the model keeps the declared `And` and gives `[n, X, Y]`.
- The printing in the demonstration driver is left out. The driver is modelled by `RunSample`, which returns the pair instead.
- Node types are a two-variant datatype. The source compares a free-form string with `'AND'` and treats every other value as OR, including a missing type and a typo. Here, any node not declared `And` (including one with no entry in `types`) behaves as OR.
- The `float('inf')` starting bound of the OR scan is modelled as `None` ("none yet"). The strict `<` that breaks ties is kept. Costs are unbounded integers. Floating-point costs do not arise, since every cost is 0.
- Behaviour on cyclic graphs is not modelled. A cycle reachable from the start node makes `compute_cost` recurse until CPython raises `RecursionError`. A cycle the start node cannot reach is harmless in the source, because only the reset loop visits its nodes: for successors S:[], X:[Y], Y:[X] and start S the source returns `(0, ['S'])`. The model still excludes such graphs, because `WellFormed` asks for a rank that decreases along every edge of the whole graph, and the constructor, `Valid()` and so `Search` require it.
- AoStar.AoGraph.Search: requires the start node to be in the graph. In the source an unknown start node makes `G.successors` at aostar.py:18 raise networkx's `NetworkXError`. This error path is not modelled.
- Stack exhaustion on very deep graphs is not modelled.
- Extraction before propagation is not modelled. In the source it raises a `TypeError` when `None` is compared with a number. `BuildSolution` requires numeric slots instead.
- AoStar.AoGraph.BuildSolution: requires a numeric slot on every node reachable from its start node. The source only reads the slots of the successors of OR nodes on the extracted path. `Search`, the only caller, meets the stronger requirement.
- networkx successor lists never contain duplicates. The model does not assume this: it allows repeated successors and lists them once per occurrence.
