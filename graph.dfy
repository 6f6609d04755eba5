/**
 * The graph model: an explicit AND/OR graph given by the ordered successor
 * list of every node and the declared type of some of the nodes, together
 * with the acyclicity the algorithm relies on and the set of nodes reachable
 * from a node.
 */
module AndOrGraph {

  /** Node labels (the sample graph uses single-letter strings). */
  type Node = string

  datatype NodeType = And | Or

  /**
   * `succ` holds every node of the graph, mapped to its successors in their
   * stable order; `types` holds the declared `node_type` attributes.
   */
  datatype Graph = Graph(succ: map<Node, seq<Node>>, types: map<Node, NodeType>)

  /** The declared type of a node; a node without one is treated as OR. */
  function TypeOf(g: Graph, n: Node): NodeType
  {
    if n in g.types then g.types[n] else Or
  }

  /**
   * Every successor is itself a node of the graph, and `rank` strictly
   * decreases along every edge, so the graph is acyclic. The rank is only a
   * witness of acyclicity; nothing computed depends on it.
   */
  ghost predicate WellFormed(g: Graph, rank: map<Node, nat>)
  {
    && g.succ.Keys <= rank.Keys
    && forall n, j :: n in g.succ && 0 <= j < |g.succ[n]| ==>
         g.succ[n][j] in g.succ && rank[g.succ[n][j]] < rank[n]
  }

  /** `cs` is a list of nodes each of which ranks below `p`, such as `p`'s successors or a prefix of them. */
  ghost predicate Below(g: Graph, rank: map<Node, nat>, p: Node, cs: seq<Node>)
    requires WellFormed(g, rank)
  {
    && p in rank
    && forall j :: 0 <= j < |cs| ==> cs[j] in g.succ && rank[cs[j]] < rank[p]
  }

  /** The nodes reachable from `n` along successor edges, `n` included. */
  ghost function Reach(g: Graph, rank: map<Node, nat>, n: Node): (r: set<Node>)
    requires WellFormed(g, rank) && n in g.succ
    ensures n in r && r <= g.succ.Keys
    decreases rank[n], 1, 0
  {
    {n} + ReachAll(g, rank, n, g.succ[n])
  }

  /** What is reachable from a successor is reachable from its predecessor. */
  lemma ReachSuccessors(g: Graph, rank: map<Node, nat>, n: Node)
    requires WellFormed(g, rank) && n in g.succ
    ensures forall j :: 0 <= j < |g.succ[n]| ==> Reach(g, rank, g.succ[n][j]) <= Reach(g, rank, n)
  {
  }

  /** The nodes reachable from any node of `cs`. */
  ghost function ReachAll(g: Graph, rank: map<Node, nat>, p: Node, cs: seq<Node>): (r: set<Node>)
    requires WellFormed(g, rank) && Below(g, rank, p, cs)
    ensures r <= g.succ.Keys
    ensures forall j :: 0 <= j < |cs| ==> Reach(g, rank, cs[j]) <= r
    decreases rank[p], 0, |cs|
  {
    if |cs| == 0 then {}
    else ReachAll(g, rank, p, cs[..|cs| - 1]) + Reach(g, rank, cs[|cs| - 1])
  }

  /** Python's `sum`: a left-to-right fold starting from 0. */
  function Sum(s: seq<int>): int
  {
    if |s| == 0 then 0 else Sum(s[..|s| - 1]) + s[|s| - 1]
  }

  /** Python's `min` of a non-empty list: the least element, which occurs in the list. */
  function Min(s: seq<int>): (m: int)
    requires |s| > 0
    ensures forall j :: 0 <= j < |s| ==> m <= s[j]
    ensures exists j :: 0 <= j < |s| && m == s[j]
  {
    if |s| == 1 then s[0]
    else
      var m := Min(s[..|s| - 1]);
      if s[|s| - 1] < m then s[|s| - 1] else m
  }

  lemma {:induction false} SumOfZeros(s: seq<int>)
    requires forall j :: 0 <= j < |s| ==> s[j] == 0
    ensures Sum(s) == 0
  {
    if |s| > 0 {
      SumOfZeros(s[..|s| - 1]);
    }
  }
}
