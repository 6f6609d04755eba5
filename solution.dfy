/**
 * The specification of solution extraction: a preorder listing that takes
 * every successor of an AND node and, at any other node, the first successor
 * whose recorded cost is strictly smallest.
 */
module SolutionSpec {
  import opened Wrappers
  import opened AndOrGraph
  import opened CostSpec

  /** Every node reachable from `n` has a numeric cost slot. */
  ghost predicate Populated(g: Graph, rank: map<Node, nat>, cost: map<Node, Option<int>>, n: Node)
    requires WellFormed(g, rank) && n in g.succ
  {
    forall m :: m in Reach(g, rank, n) ==> m in cost && cost[m].Some?
  }

  /** The slots below a node are populated when the slots below its predecessor are. */
  lemma PopulatedSuccessors(g: Graph, rank: map<Node, nat>, cost: map<Node, Option<int>>, n: Node)
    requires WellFormed(g, rank) && n in g.succ && Populated(g, rank, cost, n)
    ensures Below(g, rank, n, g.succ[n])
    ensures forall j :: 0 <= j < |g.succ[n]| ==> Populated(g, rank, cost, g.succ[n][j])
    ensures Extractable(g, rank, cost, n, g.succ[n])
    ensures forall j :: 0 <= j < |g.succ[n]| ==> g.succ[n][j] in cost && cost[g.succ[n][j]].Some?
  {
  }

  /** The values recorded in the cost slots of `cs`, in order. */
  function Slots(cost: map<Node, Option<int>>, cs: seq<Node>): seq<int>
    requires forall j :: 0 <= j < |cs| ==> cs[j] in cost && cost[cs[j]].Some?
  {
    seq(|cs|, j requires 0 <= j < |cs| => cost[cs[j]].value)
  }

  /** `s[k]` is a least element of `s` and every element before it is strictly greater. */
  ghost predicate IsLeftmostMin(s: seq<int>, k: int)
  {
    && 0 <= k < |s|
    && (forall j :: 0 <= j < |s| ==> s[k] <= s[j])
    && (forall j :: 0 <= j < k ==> s[k] < s[j])
  }

  /** The index a left-to-right scan with a strict `<` settles on. */
  ghost function LeftmostMin(s: seq<int>): (k: nat)
    requires |s| > 0
    ensures IsLeftmostMin(s, k)
  {
    if |s| == 1 then 0
    else
      var k := LeftmostMin(s[..|s| - 1]);
      if s[|s| - 1] < s[k] then |s| - 1 else k
  }

  /** There is only one leftmost minimum. */
  lemma LeftmostMinUnique(s: seq<int>, k: int)
    requires IsLeftmostMin(s, k)
    ensures k == LeftmostMin(s)
  {
  }

  /** Extraction below every node of `cs` is defined: each ranks below `p` and has its slots populated. */
  ghost predicate Extractable(g: Graph, rank: map<Node, nat>, cost: map<Node, Option<int>>, p: Node, cs: seq<Node>)
    requires WellFormed(g, rank)
  {
    Below(g, rank, p, cs) && forall j :: 0 <= j < |cs| ==> Populated(g, rank, cost, cs[j])
  }

  /** The list `build_solution` appends for `n`, given the cost slots. */
  ghost function Solution(g: Graph, rank: map<Node, nat>, cost: map<Node, Option<int>>, n: Node): (r: seq<Node>)
    requires WellFormed(g, rank) && n in g.succ && Populated(g, rank, cost, n)
    ensures |r| > 0 && r[0] == n
    decreases rank[n], 1, 0
  {
    var cs := g.succ[n];
    if |cs| == 0 then [n]
    else if TypeOf(g, n) == And then [n] + SolutionAll(g, rank, cost, n, cs)
    else [n] + Solution(g, rank, cost, cs[LeftmostMin(Slots(cost, cs))])
  }

  /** The solutions of the nodes of `cs`, one after the other. */
  ghost function SolutionAll(g: Graph, rank: map<Node, nat>, cost: map<Node, Option<int>>, p: Node, cs: seq<Node>): (r: seq<Node>)
    requires WellFormed(g, rank) && Extractable(g, rank, cost, p, cs)
    decreases rank[p], 0, |cs|
  {
    if |cs| == 0 then []
    else SolutionAll(g, rank, cost, p, cs[..|cs| - 1]) + Solution(g, rank, cost, cs[|cs| - 1])
  }

  /** Extraction lists only nodes reachable from where it started. */
  lemma {:induction false} SolutionWithinReach(g: Graph, rank: map<Node, nat>, cost: map<Node, Option<int>>, n: Node)
    requires WellFormed(g, rank) && n in g.succ && Populated(g, rank, cost, n)
    ensures forall m :: m in Solution(g, rank, cost, n) ==> m in Reach(g, rank, n)
    decreases rank[n], 1, 0
  {
    var cs := g.succ[n];
    if |cs| > 0 {
      if TypeOf(g, n) == And {
        SolutionAllWithinReach(g, rank, cost, n, cs);
      } else {
        var k := LeftmostMin(Slots(cost, cs));
        SolutionWithinReach(g, rank, cost, cs[k]);
        ReachSuccessors(g, rank, n);
      }
    }
  }

  lemma {:induction false} SolutionAllWithinReach(g: Graph, rank: map<Node, nat>, cost: map<Node, Option<int>>, p: Node, cs: seq<Node>)
    requires WellFormed(g, rank) && Extractable(g, rank, cost, p, cs)
    ensures forall m :: m in SolutionAll(g, rank, cost, p, cs) ==> m in ReachAll(g, rank, p, cs)
    decreases rank[p], 0, |cs|
  {
    if |cs| > 0 {
      SolutionAllWithinReach(g, rank, cost, p, cs[..|cs| - 1]);
      SolutionWithinReach(g, rank, cost, cs[|cs| - 1]);
    }
  }

  lemma ExtractableParts(g: Graph, rank: map<Node, nat>, cost: map<Node, Option<int>>, p: Node, a: seq<Node>, b: seq<Node>)
    requires WellFormed(g, rank) && Extractable(g, rank, cost, p, a + b)
    ensures Extractable(g, rank, cost, p, a) && Extractable(g, rank, cost, p, b)
  {
    assert forall j :: 0 <= j < |a| ==> (a + b)[j] == a[j];
    assert forall j :: 0 <= j < |b| ==> (a + b)[|a| + j] == b[j];
  }

  /**
   * Extracting below a list of nodes splits at any point: the solutions
   * below the first part come first, then those below the rest.
   */
  lemma {:induction false} SolutionAllAppend(g: Graph, rank: map<Node, nat>, cost: map<Node, Option<int>>, p: Node, a: seq<Node>, b: seq<Node>)
    requires WellFormed(g, rank) && Extractable(g, rank, cost, p, a + b)
    ensures Extractable(g, rank, cost, p, a) && Extractable(g, rank, cost, p, b)
    ensures SolutionAll(g, rank, cost, p, a + b) == SolutionAll(g, rank, cost, p, a) + SolutionAll(g, rank, cost, p, b)
    decreases |b|
  {
    ExtractableParts(g, rank, cost, p, a, b);
    if |b| == 0 {
      assert a + b == a;
    } else {
      var init, last := b[..|b| - 1], b[|b| - 1];
      assert a + b == (a + init) + [last];
      ExtractableParts(g, rank, cost, p, a + init, [last]);
      SolutionAllAppend(g, rank, cost, p, a, init);
      calc {
        SolutionAll(g, rank, cost, p, a + b);
        { assert (a + b)[..|a + b| - 1] == a + init; }
        SolutionAll(g, rank, cost, p, a + init) + Solution(g, rank, cost, last);
        SolutionAll(g, rank, cost, p, a) + SolutionAll(g, rank, cost, p, init) + Solution(g, rank, cost, last);
        SolutionAll(g, rank, cost, p, a) + SolutionAll(g, rank, cost, p, b);
      }
    }
  }

  /** Extraction below a list of nodes lists, at any position, that node's own solution between those before and after it. */
  lemma SolutionAllAt(g: Graph, rank: map<Node, nat>, cost: map<Node, Option<int>>, p: Node, cs: seq<Node>, j: int)
    requires WellFormed(g, rank) && Extractable(g, rank, cost, p, cs) && 0 <= j < |cs|
    ensures Extractable(g, rank, cost, p, cs[..j]) && Extractable(g, rank, cost, p, cs[j + 1..])
    ensures Populated(g, rank, cost, cs[j])
    ensures SolutionAll(g, rank, cost, p, cs)
         == SolutionAll(g, rank, cost, p, cs[..j]) + Solution(g, rank, cost, cs[j]) + SolutionAll(g, rank, cost, p, cs[j + 1..])
  {
    var before, after := cs[..j], cs[j + 1..];
    var rest := [cs[j]] + after;
    assert cs == before + rest;
    assert Extractable(g, rank, cost, p, before) && Extractable(g, rank, cost, p, rest)
        && SolutionAll(g, rank, cost, p, cs) == SolutionAll(g, rank, cost, p, before) + SolutionAll(g, rank, cost, p, rest) by {
      SolutionAllAppend(g, rank, cost, p, before, rest);
    }
    assert SolutionAll(g, rank, cost, p, rest) == Solution(g, rank, cost, cs[j]) + SolutionAll(g, rank, cost, p, after)
        && Extractable(g, rank, cost, p, after) && Populated(g, rank, cost, cs[j]) by {
      SolutionAllAppend(g, rank, cost, p, [cs[j]], after);
      SolutionAllSingle(g, rank, cost, p, cs[j]);
    }
  }

  lemma SolutionAllSingle(g: Graph, rank: map<Node, nat>, cost: map<Node, Option<int>>, p: Node, c: Node)
    requires WellFormed(g, rank) && Extractable(g, rank, cost, p, [c])
    ensures c in g.succ && Populated(g, rank, cost, c)
    ensures SolutionAll(g, rank, cost, p, [c]) == Solution(g, rank, cost, c)
  {
    assert [c][0] == c;
    assert [c][..0] == [];
  }

  /**
   * At an AND node the solution is the node followed by the full solution of
   * every successor, in successor order: for every successor, the solutions
   * below the successors before it, then its own solution, then the
   * solutions below the successors after it. A node shared by two successors
   * is listed once per occurrence.
   */
  lemma AndSolutionTakesAllChildren(g: Graph, rank: map<Node, nat>, cost: map<Node, Option<int>>, n: Node, j: int)
    requires WellFormed(g, rank) && n in g.succ && Populated(g, rank, cost, n)
    requires TypeOf(g, n) == And && 0 <= j < |g.succ[n]|
    ensures Extractable(g, rank, cost, n, g.succ[n][..j]) && Extractable(g, rank, cost, n, g.succ[n][j + 1..])
    ensures Populated(g, rank, cost, g.succ[n][j])
    ensures Solution(g, rank, cost, n)
         == [n] + SolutionAll(g, rank, cost, n, g.succ[n][..j]) + Solution(g, rank, cost, g.succ[n][j])
            + SolutionAll(g, rank, cost, n, g.succ[n][j + 1..])
  {
    var cs := g.succ[n];
    PopulatedSuccessors(g, rank, cost, n);
    assert Solution(g, rank, cost, n) == [n] + SolutionAll(g, rank, cost, n, cs);
    SolutionAllAt(g, rank, cost, n, cs, j);
  }

  /**
   * At a node not declared AND with successors, the solution is the node
   * followed by the solution of exactly one successor: the first one whose
   * slot holds the strictly smallest value.
   */
  lemma OrSolutionTakesLeftmostMin(g: Graph, rank: map<Node, nat>, cost: map<Node, Option<int>>, n: Node, k: int)
    requires WellFormed(g, rank) && n in g.succ && Populated(g, rank, cost, n)
    requires TypeOf(g, n) == Or && |g.succ[n]| > 0
    requires IsLeftmostMin(Slots(cost, g.succ[n]), k)
    ensures Solution(g, rank, cost, n) == [n] + Solution(g, rank, cost, g.succ[n][k])
  {
    LeftmostMinUnique(Slots(cost, g.succ[n]), k);
  }

  /**
   * Once propagation has filled the slots, the successor extraction picks at
   * an OR node costs exactly what the OR node costs.
   */
  lemma OrChoiceIsOptimal(g: Graph, rank: map<Node, nat>, cost: map<Node, Option<int>>, n: Node, k: int)
    requires WellFormed(g, rank) && n in g.succ
    requires forall m :: m in Reach(g, rank, n) ==> m in cost && cost[m] == Some(Cost(g, rank, m))
    requires TypeOf(g, n) == Or && |g.succ[n]| > 0
    requires IsLeftmostMin(Slots(cost, g.succ[n]), k)
    ensures Cost(g, rank, g.succ[n][k]) == Cost(g, rank, n)
  {
    var cs := g.succ[n];
    var costs := ChildCosts(g, rank, n, cs);
    assert Slots(cost, cs) == costs;
    var i :| 0 <= i < |costs| && Min(costs) == costs[i];
    assert costs[k] <= costs[i];
  }

  /**
   * Because every computed cost is 0, all successors of an OR node tie after
   * propagation and the strict `<` always keeps the first successor.
   */
  lemma OrChoiceIsFirstAfterPropagation(g: Graph, rank: map<Node, nat>, cost: map<Node, Option<int>>, n: Node)
    requires WellFormed(g, rank) && n in g.succ
    requires forall m :: m in Reach(g, rank, n) ==> m in cost && cost[m] == Some(Cost(g, rank, m))
    requires TypeOf(g, n) == Or && |g.succ[n]| > 0
    ensures Populated(g, rank, cost, n)
    ensures Solution(g, rank, cost, n) == [n] + Solution(g, rank, cost, g.succ[n][0])
  {
    var cs := g.succ[n];
    forall j | 0 <= j < |cs|
      ensures Slots(cost, cs)[j] == 0
    {
      CostIsZero(g, rank, cs[j]);
    }
    OrSolutionTakesLeftmostMin(g, rank, cost, n, 0);
  }
}
