/**
 * The verdict logic of the Save button in src/Header.jsx: a flow is refused
 * when its adjacency view has a cycle, otherwise when it has more than one
 * node and more than one of them has no incoming edge.
 */
module Header {

  import opened FlowGraph
  import opened GraphValidation

  /** The three outcomes of a save; the toast text is not modelled. */
  datatype Verdict = Saved | InfiniteLoop | CannotSave

  /** The ids that are the target of some edge. */
  function TargetIds(edges: seq<Edge>): (ids: set<Id>)
    ensures forall id :: id in ids <==> exists i :: 0 <= i < |edges| && edges[i].target == id
  {
    set e | e in edges :: e.target
  }

  /**
   * The number of nodes (counted with repetition, in list order) whose id is
   * not the target of any edge: the "empty target handle" count.
   */
  function DanglingStarts(nodes: seq<Node>, edges: seq<Edge>): (count: nat)
    ensures count <= |nodes|
  {
    if nodes == [] then 0
    else
      DanglingStarts(nodes[..|nodes| - 1], edges)
      + (if nodes[|nodes| - 1].id in TargetIds(edges) then 0 else 1)
  }

  /** The positions of `nodes` that hold a node without an incoming edge. */
  function DanglingPositions(nodes: seq<Node>, edges: seq<Edge>): set<nat>
  {
    set i: nat | i < |nodes| && nodes[i].id !in TargetIds(edges)
  }

  /** Rule 1: more than one node, and more than one of them with no incoming edge. */
  function RuleOneFails(nodes: seq<Node>, edges: seq<Edge>): (fails: bool)
    ensures fails <==> |nodes| > 1 && |DanglingPositions(nodes, edges)| > 1
    ensures |nodes| <= 1 ==> !fails
  {
    DanglingStartsCountsPositions(nodes, edges);
    |nodes| > 1 && DanglingStarts(nodes, edges) > 1
  }

  /**
   * `handleSave`: collects the targeted ids, counts the nodes outside that set
   * one by one, evaluates rule 1 and the cycle rule, and reports the cycle
   * first, then rule 1, and otherwise success. The inputs are values and are
   * left as they were.
   */
  method HandleSave(nodes: seq<Node>, edges: seq<Edge>) returns (verdict: Verdict)
    ensures verdict == InfiniteLoop <==> HasDirectedCycle(Adjacency(nodes, edges))
    ensures verdict == CannotSave <==> !HasDirectedCycle(Adjacency(nodes, edges)) && RuleOneFails(nodes, edges)
    ensures verdict == Saved <==> !HasDirectedCycle(Adjacency(nodes, edges)) && !RuleOneFails(nodes, edges)
  {
    var totalNodes := |nodes|;
    var targetedNodeIds := TargetIds(edges);
    var nodesWithEmptyTargetCount := 0;
    for i := 0 to |nodes|
      invariant nodesWithEmptyTargetCount == DanglingStarts(nodes[..i], edges)
    {
      assert nodes[..i + 1][..i] == nodes[..i];
      if nodes[i].id !in targetedNodeIds {
        nodesWithEmptyTargetCount := nodesWithEmptyTargetCount + 1;
      }
    }
    assert nodes[..|nodes|] == nodes;
    var rule1Fails := totalNodes > 1 && nodesWithEmptyTargetCount > 1;
    var rule2Fails := HasCycle(nodes, edges);
    if rule2Fails {
      verdict := InfiniteLoop;
    } else if rule1Fails {
      verdict := CannotSave;
    } else {
      verdict := Saved;
    }
  }

  /** The running count is the number of positions holding an untargeted node. */
  lemma {:induction false} DanglingStartsCountsPositions(nodes: seq<Node>, edges: seq<Edge>)
    ensures DanglingStarts(nodes, edges) == |DanglingPositions(nodes, edges)|
  {
    if nodes != [] {
      var init := nodes[..|nodes| - 1];
      var last := |nodes| - 1;
      DanglingStartsCountsPositions(init, edges);
      if nodes[last].id in TargetIds(edges) {
        assert DanglingPositions(nodes, edges) == DanglingPositions(init, edges);
      } else {
        assert DanglingPositions(nodes, edges) == DanglingPositions(init, edges) + {last};
      }
    }
  }

  /**
   * When every node but the first is the target of some edge, at most one
   * node has no incoming edge, so rule 1 passes; in particular a flow of zero
   * or one node never fails rule 1.
   */
  lemma {:induction false} SingleStartPassesRuleOne(nodes: seq<Node>, edges: seq<Edge>)
    requires forall i :: 1 <= i < |nodes| ==> nodes[i].id in TargetIds(edges)
    ensures DanglingStarts(nodes, edges) <= 1
    ensures !RuleOneFails(nodes, edges)
  {
    if |nodes| > 1 {
      var init := nodes[..|nodes| - 1];
      assert forall i :: 1 <= i < |init| ==> init[i] == nodes[i];
      SingleStartPassesRuleOne(init, edges);
    }
  }
}
