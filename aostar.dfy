/**
 * The AO* search over an explicit acyclic AND/OR graph whose nodes carry a
 * mutable cost slot: reset every slot, propagate costs bottom-up from the
 * start node, then extract one cheapest solution top-down.
 */
module AoStar {
  import opened Wrappers
  import opened AndOrGraph
  import opened CostSpec
  import opened SolutionSpec

  /** A graph together with the per-node cost slots the search writes in place. */
  class AoGraph {
    const graph: Graph
    ghost const rank: map<Node, nat>
    /** The cost slot of each node: absent before any reset, `None` once reset, `Some(c)` once computed. */
    var cost: map<Node, Option<int>>

    ghost predicate Valid()
      reads this
    {
      WellFormed(graph, rank) && cost.Keys <= graph.succ.Keys
    }

    constructor (graph: Graph, ghost rank: map<Node, nat>)
      requires WellFormed(graph, rank)
      ensures Valid() && this.graph == graph && this.rank == rank && cost == map[]
    {
      this.graph := graph;
      this.rank := rank;
      cost := map[];
    }

    /** Sets the cost slot of every node of the graph to `None`. */
    method ResetCosts()
      requires Valid()
      modifies this
      ensures Valid()
      ensures cost == map n | n in graph.succ :: None
    {
      var todo := graph.succ.Keys;
      while todo != {}
        invariant todo <= graph.succ.Keys
        invariant cost == old(cost) + map n | n in graph.succ.Keys - todo :: None
        invariant Valid()
        decreases todo
      {
        var n :| n in todo;
        cost := cost[n := None];
        todo := todo - {n};
      }
      assert old(cost).Keys <= graph.succ.Keys;
    }

    /**
     * Computes the cost of `node` bottom-up, writing the cost of every node
     * reachable from it into its slot (a shared node is recomputed and
     * rewritten with the same value), and returns the value it stores for
     * `node`.
     */
    method ComputeCost(node: Node) returns (c: int)
      requires Valid() && node in graph.succ
      modifies this
      ensures Valid()
      ensures c == Cost(graph, rank, node)
      ensures node in cost && cost[node] == Some(c)
      ensures cost == old(cost) + ComputedSlots(graph, rank, Reach(graph, rank, node))
      decreases rank[node], 1
    {
      var children := graph.succ[node];
      if |children| == 0 {
        assert Reach(graph, rank, node) == {node};
        ComputedSlotsExtend(graph, rank, cost, {}, node);
        cost := cost[node := Some(0)];
        return 0;
      }
      var nodeType := TypeOf(graph, node);
      var childCosts := ComputeChildCosts(node, children);
      if nodeType == And {
        c := Sum(childCosts);
      } else {
        c := Min(childCosts);
      }
      assert c == Cost(graph, rank, node);
      ghost var below := ReachAll(graph, rank, node, children);
      assert Reach(graph, rank, node) == below + {node};
      ComputedSlotsExtend(graph, rank, old(cost), below, node);
      cost := cost[node := Some(c)];
    }

    /** The loop of `ComputeCost` that builds `child_costs`: the cost of every successor, in order. */
    method ComputeChildCosts(node: Node, children: seq<Node>) returns (childCosts: seq<int>)
      requires Valid() && node in graph.succ && children == graph.succ[node]
      modifies this
      ensures Valid()
      ensures childCosts == ChildCosts(graph, rank, node, children)
      ensures cost == old(cost) + ComputedSlots(graph, rank, ReachAll(graph, rank, node, children))
      decreases rank[node], 0
    {
      childCosts := [];
      for i := 0 to |children|
        invariant Valid()
        invariant childCosts == ChildCosts(graph, rank, node, children[..i])
        invariant cost == old(cost) + ComputedSlots(graph, rank, ReachAll(graph, rank, node, children[..i]))
      {
        ComputedSlotsStep(graph, rank, old(cost), node, children, i);
        var cCost := ComputeCost(children[i]);
        childCosts := childCosts + [cCost];
        assert children[..i + 1][..i] == children[..i];
      }
      assert children[..|children|] == children;
    }

    /**
     * The scan over the successors of an OR node: `None` stands for the
     * infinite starting bound, and a slot replaces the best so far only when
     * it is strictly smaller.
     */
    method ChooseChild(children: seq<Node>) returns (k: nat)
      requires |children| > 0
      requires forall j :: 0 <= j < |children| ==> children[j] in cost && cost[children[j]].Some?
      ensures IsLeftmostMin(Slots(cost, children), k)
    {
      ghost var slots := Slots(cost, children);
      var bestVal: Option<int> := None;
      k := 0;
      for i := 0 to |children|
        invariant bestVal.None? <==> i == 0
        invariant i > 0 ==> IsLeftmostMin(slots[..i], k) && bestVal == Some(slots[k])
      {
        var val := cost[children[i]].value;
        if bestVal.None? || val < bestVal.value {
          bestVal := Some(val);
          k := i;
        }
      }
      assert slots[..|children|] == slots;
    }

    /**
     * Appends the solution below `node` to `solution`: `node` itself, then
     * the solutions of all successors of an AND node or of the chosen
     * successor of any other node. Earlier entries are left untouched.
     */
    method BuildSolution(node: Node, solution: seq<Node>) returns (out: seq<Node>)
      requires WellFormed(graph, rank) && node in graph.succ && Populated(graph, rank, cost, node)
      ensures out == solution + Solution(graph, rank, cost, node)
      decreases rank[node], 1
    {
      out := solution + [node];
      var children := graph.succ[node];
      if |children| == 0 {
        return;
      }
      PopulatedSuccessors(graph, rank, cost, node);
      var nodeType := TypeOf(graph, node);
      if nodeType == And {
        out := BuildAll(node, children, out);
      } else {
        out := BuildChosen(node, children, out);
      }
    }

    /**
     * The branch of `BuildSolution` at any other node: scans the successors
     * for the chosen one and extracts below it alone.
     */
    method BuildChosen(node: Node, children: seq<Node>, solution: seq<Node>) returns (out: seq<Node>)
      requires WellFormed(graph, rank) && node in graph.succ && Populated(graph, rank, cost, node)
      requires TypeOf(graph, node) == Or && children == graph.succ[node] && |children| > 0
      ensures out == solution + Solution(graph, rank, cost, node)[1..]
      decreases rank[node], 0
    {
      PopulatedSuccessors(graph, rank, cost, node);
      var best := ChooseChild(children);
      OrSolutionTakesLeftmostMin(graph, rank, cost, node, best);
      out := BuildSolution(children[best], solution);
    }

    /** The loop of `BuildSolution` at an AND node: extracts below every successor, in order. */
    method BuildAll(node: Node, children: seq<Node>, solution: seq<Node>) returns (out: seq<Node>)
      requires WellFormed(graph, rank) && node in graph.succ && Populated(graph, rank, cost, node)
      requires TypeOf(graph, node) == And && children == graph.succ[node] && |children| > 0
      ensures out == solution + SolutionAll(graph, rank, cost, node, children)
      decreases rank[node], 0
    {
      PopulatedSuccessors(graph, rank, cost, node);
      out := solution;
      for i := 0 to |children|
        invariant out == solution + SolutionAll(graph, rank, cost, node, children[..i])
      {
        assert children[..i + 1][..i] == children[..i];
        out := BuildSolution(children[i], out);
      }
      assert children[..|children|] == children;
    }

    /**
     * The entry point: resets every slot, propagates costs from `start` and
     * extracts a solution from it. Afterwards every node reachable from
     * `start` holds its cost and every other node holds `None`.
     */
    method Search(start: Node) returns (bestCost: int, solution: seq<Node>)
      requires Valid() && start in graph.succ
      modifies this
      ensures Valid()
      ensures bestCost == Cost(graph, rank, start) && bestCost == 0
      ensures cost.Keys == graph.succ.Keys
      ensures forall m :: m in graph.succ ==>
        cost[m] == if m in Reach(graph, rank, start) then Some(Cost(graph, rank, m)) else None
      ensures Populated(graph, rank, cost, start)
      ensures solution == Solution(graph, rank, cost, start)
    {
      ResetCosts();
      bestCost := ComputeCost(start);
      CostIsZero(graph, rank, start);
      solution := BuildSolution(start, []);
    }

    /** Running the whole search twice on the same graph gives the same pair both times. */
    method SearchTwice(start: Node) returns (first: (int, seq<Node>), second: (int, seq<Node>))
      requires Valid() && start in graph.succ
      modifies this
      ensures Valid()
      ensures forall m :: m in graph.succ ==>
        m in cost && cost[m] == if m in Reach(graph, rank, start) then Some(Cost(graph, rank, m)) else None
      ensures Populated(graph, rank, cost, start)
      ensures first == second == (0, Solution(graph, rank, cost, start))
    {
      var c1, s1 := Search(start);
      ghost var slots := cost;
      var c2, s2 := Search(start);
      assert cost == slots;
      first, second := (c1, s1), (c2, s2);
    }
  }

  /** The sample graph: A (OR) has successors B (AND) and C (OR), and B has the single successor D (AND). */
  function SampleGraph(): Graph
  {
    Graph(map["A" := ["B", "C"], "B" := ["D"], "C" := [], "D" := []],
          map["A" := Or, "B" := And, "C" := Or, "D" := And])
  }

  /**
   * The search on the sample graph costs 0, and the tie between B and C at A
   * goes to B, the earlier successor.
   */
  method RunSample() returns (bestCost: int, solution: seq<Node>)
    ensures bestCost == 0 && solution == ["A", "B", "D"]
  {
    SampleWellFormed();
    var ao := new AoGraph(SampleGraph(), SampleRank());
    bestCost, solution := ao.Search("A");
    forall m | m in SampleGraph().succ
      ensures m in ao.cost && ao.cost[m] == Some(0)
    {
      CostIsZero(SampleGraph(), SampleRank(), m);
    }
    SampleSolution(ao.cost);
  }

  /** A rank witnessing that the sample graph is acyclic. */
  ghost function SampleRank(): map<Node, nat>
  {
    map["A" := 2, "B" := 1, "C" := 0, "D" := 0]
  }

  lemma SampleWellFormed()
    ensures WellFormed(SampleGraph(), SampleRank())
    ensures Reach(SampleGraph(), SampleRank(), "A") == SampleGraph().succ.Keys
  {
    var g, rank := SampleGraph(), SampleRank();
    assert Reach(g, rank, "D") == {"D"};
    assert Reach(g, rank, "C") == {"C"};
    assert Reach(g, rank, "B") == {"B", "D"};
  }

  /** With every slot holding 0, extraction from A takes B (the earlier of the tied successors) and then D. */
  lemma SampleSolution(cost: map<Node, Option<int>>)
    requires forall m :: m in SampleGraph().succ ==> m in cost && cost[m] == Some(0)
    ensures WellFormed(SampleGraph(), SampleRank())
    ensures Populated(SampleGraph(), SampleRank(), cost, "A")
    ensures Solution(SampleGraph(), SampleRank(), cost, "A") == ["A", "B", "D"]
  {
    var g, rank := SampleGraph(), SampleRank();
    SampleWellFormed();
    assert Solution(g, rank, cost, "D") == ["D"];
    assert Solution(g, rank, cost, "B") == ["B", "D"];
    assert Slots(cost, ["B", "C"]) == [0, 0];
    assert LeftmostMin(Slots(cost, ["B", "C"])) == 0;
  }
}
