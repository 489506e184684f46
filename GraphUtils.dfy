/**
 * The parent-text lookup of src/utils/graphUtils.js, which gives the
 * suggestion service the message that leads into the selected node.
 */
module GraphUtils {

  import opened Wrappers
  import opened FlowGraph

  /** `edges.find((edge) => edge.target === target)`: the first incoming edge. */
  function FindIncoming(edges: seq<Edge>, target: Id): (r: Option<Edge>)
    ensures r.None? <==> forall i :: 0 <= i < |edges| ==> edges[i].target != target
    ensures r.Some? ==> exists i :: 0 <= i < |edges| && edges[i] == r.value && FirstIncoming(edges, target, i)
  {
    if edges == [] then None
    else if edges[0].target == target then Some(edges[0])
    else
      var rest := FindIncoming(edges[1..], target);
      if rest.Some? then
        assert exists i :: 0 <= i < |edges| && edges[i] == rest.value && FirstIncoming(edges, target, i) by {
          var j :| 0 <= j < |edges| - 1 && edges[1..][j] == rest.value && FirstIncoming(edges[1..], target, j);
          assert FirstIncoming(edges, target, j + 1);
        }
        rest
      else rest
  }

  /** Position `i` holds the first edge of `edges` that targets `target`. */
  predicate FirstIncoming(edges: seq<Edge>, target: Id, i: int)
  {
    0 <= i < |edges| && edges[i].target == target && forall j :: 0 <= j < i ==> edges[j].target != target
  }

  /** `nodes.find((node) => node.id === id)`: the first node with that id. */
  function FindNode(nodes: seq<Node>, id: Id): (r: Option<Node>)
    ensures r.None? <==> forall i :: 0 <= i < |nodes| ==> nodes[i].id != id
    ensures r.Some? ==> r.value in nodes && r.value.id == id
    ensures r.Some? ==> exists i :: 0 <= i < |nodes| && nodes[i] == r.value && forall j :: 0 <= j < i ==> nodes[j].id != id
  {
    if nodes == [] then None
    else if nodes[0].id == id then Some(nodes[0])
    else
      var rest := FindNode(nodes[1..], id);
      if rest.Some? then
        assert exists i :: 0 <= i < |nodes| && nodes[i] == rest.value && forall j :: 0 <= j < i ==> nodes[j].id != id by {
          var k :| 0 <= k < |nodes| - 1 && nodes[1..][k] == rest.value && forall j :: 0 <= j < k ==> nodes[1..][j].id != id;
          assert nodes[k + 1] == rest.value;
        }
        rest
      else rest
  }

  /** `data?.label || null`: a present, non-empty label, and nothing otherwise. */
  function LabelOf(data: map<string, string>): (r: Option<string>)
    ensures r.Some? <==> "label" in data && data["label"] != ""
    ensures r.Some? ==> r.value == data["label"]
  {
    if "label" in data && data["label"] != "" then Some(data["label"]) else None
  }

  /**
   * `getParentNodeText`: follows the first incoming edge of `currentNodeId`
   * back to its source node, and yields that node's label when the source is
   * a text node with a non-empty label.
   */
  function GetParentNodeText(currentNodeId: Id, nodes: seq<Node>, edges: seq<Edge>): (r: Option<string>)
    ensures (forall i :: 0 <= i < |edges| ==> edges[i].target != currentNodeId) ==> r.None?
    ensures r.Some? ==>
      (exists i, n :: FirstIncoming(edges, currentNodeId, i) && n in nodes
        && n.id == edges[i].source && n.nodeType == TextNodeType
        && "label" in n.data && n.data["label"] == r.value && r.value != "")
  {
    var incomingEdge := FindIncoming(edges, currentNodeId);
    if incomingEdge.None? then None
    else
      var parentNode := FindNode(nodes, incomingEdge.value.source);
      if parentNode.Some? && parentNode.value.nodeType == TextNodeType then LabelOf(parentNode.value.data)
      else None
  }

  /**
   * Only the first incoming edge is consulted: edges after it, whatever they
   * connect, do not change the result.
   */
  lemma {:induction false} LaterEdgesIgnored(currentNodeId: Id, nodes: seq<Node>, edges: seq<Edge>, later: seq<Edge>)
    requires exists i :: 0 <= i < |edges| && edges[i].target == currentNodeId
    ensures GetParentNodeText(currentNodeId, nodes, edges + later) == GetParentNodeText(currentNodeId, nodes, edges)
  {
    FindIncomingPrefix(edges, later, currentNodeId);
  }

  lemma {:induction false} FindIncomingPrefix(edges: seq<Edge>, later: seq<Edge>, target: Id)
    requires exists i :: 0 <= i < |edges| && edges[i].target == target
    ensures FindIncoming(edges + later, target) == FindIncoming(edges, target)
  {
    if edges[0].target != target {
      assert (edges + later)[1..] == edges[1..] + later;
      assert exists i :: 0 <= i < |edges[1..]| && edges[1..][i].target == target by {
        var i :| 0 <= i < |edges| && edges[i].target == target;
        assert i != 0 && edges[1..][i - 1] == edges[i];
      }
      FindIncomingPrefix(edges[1..], later, target);
    }
  }

  /**
   * The parent is decided by the first incoming edge: if position `i` holds
   * it, the result is the label of the first node with that edge's source id,
   * provided that node is a text node.
   */
  lemma ParentFromFirstIncoming(currentNodeId: Id, nodes: seq<Node>, edges: seq<Edge>, i: nat)
    requires FirstIncoming(edges, currentNodeId, i)
    ensures var parent := FindNode(nodes, edges[i].source);
            GetParentNodeText(currentNodeId, nodes, edges)
            == if parent.Some? && parent.value.nodeType == TextNodeType then LabelOf(parent.value.data) else None
  {
  }
}
