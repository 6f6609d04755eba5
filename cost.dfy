/**
 * The specification of cost propagation: the cost of a node is 0 for a leaf,
 * the sum of its successors' costs for an AND node and their minimum for any
 * other node, and what the cost slots hold once propagation has run.
 */
module CostSpec {
  import opened Wrappers
  import opened AndOrGraph

  /** The cost `compute_cost` assigns to `n`. */
  ghost function Cost(g: Graph, rank: map<Node, nat>, n: Node): int
    requires WellFormed(g, rank) && n in g.succ
    decreases rank[n], 1, 0
  {
    var cs := g.succ[n];
    if |cs| == 0 then 0
    else if TypeOf(g, n) == And then Sum(ChildCosts(g, rank, n, cs))
    else Min(ChildCosts(g, rank, n, cs))
  }

  /** The list `child_costs`: the cost of each node of `cs`, in order. */
  ghost function ChildCosts(g: Graph, rank: map<Node, nat>, p: Node, cs: seq<Node>): (r: seq<int>)
    requires WellFormed(g, rank) && Below(g, rank, p, cs)
    ensures |r| == |cs|
    ensures forall j :: 0 <= j < |cs| ==> r[j] == Cost(g, rank, cs[j])
    decreases rank[p], 0, |cs|
  {
    if |cs| == 0 then []
    else ChildCosts(g, rank, p, cs[..|cs| - 1]) + [Cost(g, rank, cs[|cs| - 1])]
  }

  /** The cost slots of the nodes in `s` after propagation: each holds its node's cost. */
  ghost function ComputedSlots(g: Graph, rank: map<Node, nat>, s: set<Node>): (m: map<Node, Option<int>>)
    requires WellFormed(g, rank) && s <= g.succ.Keys
  {
    map n | n in s :: Some(Cost(g, rank, n))
  }

  lemma ComputedSlotsUnion(g: Graph, rank: map<Node, nat>, a: set<Node>, b: set<Node>)
    requires WellFormed(g, rank) && a <= g.succ.Keys && b <= g.succ.Keys
    ensures ComputedSlots(g, rank, a) + ComputedSlots(g, rank, b) == ComputedSlots(g, rank, a + b)
  {
  }

  /** Filling the slots below one more successor extends the slots filled below the earlier ones. */
  lemma ComputedSlotsStep(g: Graph, rank: map<Node, nat>, m: map<Node, Option<int>>, p: Node, cs: seq<Node>, i: nat)
    requires WellFormed(g, rank) && Below(g, rank, p, cs) && i < |cs|
    ensures (m + ComputedSlots(g, rank, ReachAll(g, rank, p, cs[..i]))) + ComputedSlots(g, rank, Reach(g, rank, cs[i]))
         == m + ComputedSlots(g, rank, ReachAll(g, rank, p, cs[..i + 1]))
  {
    assert cs[..i + 1][..i] == cs[..i];
    ComputedSlotsUnion(g, rank, ReachAll(g, rank, p, cs[..i]), Reach(g, rank, cs[i]));
  }

  lemma ComputedSlotsExtend(g: Graph, rank: map<Node, nat>, m: map<Node, Option<int>>, s: set<Node>, n: Node)
    requires WellFormed(g, rank) && s <= g.succ.Keys && n in g.succ
    ensures (m + ComputedSlots(g, rank, s))[n := Some(Cost(g, rank, n))] == m + ComputedSlots(g, rank, s + {n})
    ensures m[n := Some(Cost(g, rank, n))] == m + ComputedSlots(g, rank, {n})
  {
  }

  /** An AND node costs the sum of its successors' costs, taken in successor order (0 for a leaf). */
  lemma AndCostIsSum(g: Graph, rank: map<Node, nat>, n: Node)
    requires WellFormed(g, rank) && n in g.succ && TypeOf(g, n) == And
    ensures var cs := g.succ[n];
      Cost(g, rank, n) == Sum(seq(|cs|, j requires 0 <= j < |cs| => Cost(g, rank, cs[j])))
  {
    var cs := g.succ[n];
    var costs := seq(|cs|, j requires 0 <= j < |cs| => Cost(g, rank, cs[j]));
    if |cs| > 0 {
      assert ChildCosts(g, rank, n, cs) == costs;
    }
  }

  /**
   * Any node not declared AND, with at least one successor, costs the least
   * of its successors' costs: no more than any of them, and equal to one.
   */
  lemma OrCostIsMin(g: Graph, rank: map<Node, nat>, n: Node)
    requires WellFormed(g, rank) && n in g.succ && TypeOf(g, n) == Or && |g.succ[n]| > 0
    ensures forall j :: 0 <= j < |g.succ[n]| ==> Cost(g, rank, n) <= Cost(g, rank, g.succ[n][j])
    ensures exists j :: 0 <= j < |g.succ[n]| && Cost(g, rank, n) == Cost(g, rank, g.succ[n][j])
  {
    var costs := ChildCosts(g, rank, n, g.succ[n]);
    var j :| 0 <= j < |costs| && Min(costs) == costs[j];
    assert Cost(g, rank, n) == Cost(g, rank, g.succ[n][j]);
  }

  /**
   * Leaves cost 0 and both sum and min of zeros are 0, so every node costs 0
   * (in particular no cost is negative).
   */
  lemma {:induction false} CostIsZero(g: Graph, rank: map<Node, nat>, n: Node)
    requires WellFormed(g, rank) && n in g.succ
    ensures Cost(g, rank, n) == 0
    decreases rank[n]
  {
    var cs := g.succ[n];
    if |cs| > 0 {
      forall j | 0 <= j < |cs|
        ensures Cost(g, rank, cs[j]) == 0
      {
        CostIsZero(g, rank, cs[j]);
      }
      var costs := ChildCosts(g, rank, n, cs);
      SumOfZeros(costs);
    }
  }
}
