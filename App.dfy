/**
 * The flow-editing handlers of src/App.jsx: the one-outgoing-edge rule for new
 * connections, the node id counter and the node drop.
 */
module App {

  import opened Wrappers
  import opened FlowGraph
  import opened UseUndoRedo

  // ---------------------------------------------------------------------------
  // Connections

  /** `edges.some(edge => edge.source === source)`. */
  function HasOutgoingEdge(edges: seq<Edge>, source: Id): (b: bool)
    ensures b <==> exists i :: 0 <= i < |edges| && edges[i].source == source
  {
    if edges == [] then false
    else edges[0].source == source || HasOutgoingEdge(edges[1..], source)
  }

  /** `isValidConnection`: a connection is refused when its source already has an outgoing edge. */
  function IsValidConnection(edges: seq<Edge>, connection: Connection): (ok: bool)
    ensures ok <==> forall e :: e in edges ==> e.source != connection.source
  {
    !HasOutgoingEdge(edges, connection.source)
  }

  /** Every node has at most one outgoing edge. */
  predicate OutDegreeAtMostOne(edges: seq<Edge>)
  {
    forall i, j :: 0 <= i < j < |edges| ==> edges[i].source != edges[j].source
  }

  /**
   * The edge list after `onConnect`: unchanged when the source already has an
   * outgoing edge, otherwise extended by exactly one edge for the connection.
   */
  function Connect(edges: seq<Edge>, params: Connection): (r: seq<Edge>)
    ensures HasOutgoingEdge(edges, params.source) ==> r == edges
    ensures !HasOutgoingEdge(edges, params.source) ==> |r| == |edges| + 1 && r[..|edges|] == edges
    ensures !HasOutgoingEdge(edges, params.source) ==> r[|edges|] == Edge(params.source, params.target)
  {
    if HasOutgoingEdge(edges, params.source) then edges
    else edges + [Edge(params.source, params.target)]
  }

  /** `onConnect` never gives a node a second outgoing edge. */
  lemma ConnectKeepsOutDegree(edges: seq<Edge>, params: Connection)
    requires OutDegreeAtMostOne(edges)
    ensures OutDegreeAtMostOne(Connect(edges, params))
  {
  }

  /** The edges after the connections of `connections`, in order. */
  function ConnectAll(edges: seq<Edge>, connections: seq<Connection>): seq<Edge>
    decreases connections
  {
    if connections == [] then edges
    else ConnectAll(Connect(edges, connections[0]), connections[1..])
  }

  /** Any sequence of `onConnect` calls keeps every out-degree at most one. */
  lemma {:induction false} ConnectAllKeepsOutDegree(edges: seq<Edge>, connections: seq<Connection>)
    requires OutDegreeAtMostOne(edges)
    decreases connections
    ensures OutDegreeAtMostOne(ConnectAll(edges, connections))
  {
    if connections != [] {
      ConnectKeepsOutDegree(edges, connections[0]);
      ConnectAllKeepsOutDegree(Connect(edges, connections[0]), connections[1..]);
    }
  }

  /** `onConnect` adds an edge exactly when `isValidConnection` accepts the connection, self-loops included. */
  lemma ConnectAgreesWithValidity(edges: seq<Edge>, params: Connection)
    ensures Connect(edges, params) != edges <==> IsValidConnection(edges, params)
  {
  }

  /**
   * `onConnect`: a connection from a node that already has an outgoing edge
   * is ignored without a snapshot; any other is snapshotted and then added.
   */
  method OnConnect(history: UndoRedo, params: Connection)
    requires history.Valid()
    modifies history
    ensures history.Valid()
    ensures HasOutgoingEdge(old(history.edges), params.source) ==> history.State() == old(history.State())
    ensures !HasOutgoingEdge(old(history.edges), params.source) ==>
      history.State() == RecordStep(old(history.State())).(present := Snapshot(old(history.nodes), Connect(old(history.edges), params)))
  {
    var hasOutgoingEdge := HasOutgoingEdge(history.edges, params.source);
    if hasOutgoingEdge {
      return;
    }
    history.TakeSnapshot();
    history.SetEdges(history.edges + [Edge(params.source, params.target)]);
  }

  // ---------------------------------------------------------------------------
  // Node ids

  /** The character of a decimal digit. */
  function Digit(d: nat): (c: char)
    requires d < 10
    ensures '0' <= c <= '9'
  {
    ['0', '1', '2', '3', '4', '5', '6', '7', '8', '9'][d]
  }

  /**
   * The decimal numeral of `n`, as a template literal writes it for counter
   * values below 2^53: digits only, with no leading zero.
   */
  function Decimal(n: nat): (s: string)
    ensures |s| >= 1
    ensures n >= 10 ==> |s| >= 2
    ensures forall i :: 0 <= i < |s| ==> '0' <= s[i] <= '9'
    ensures s[0] == '0' ==> s == "0"
  {
    if n < 10 then [Digit(n)] else Decimal(n / 10) + [Digit(n % 10)]
  }

  lemma DigitInjective(a: nat, b: nat)
    requires a < 10 && b < 10 && Digit(a) == Digit(b)
    ensures a == b
  {
  }

  /** Different numbers have different numerals. */
  lemma {:induction false} DecimalInjective(a: nat, b: nat)
    requires Decimal(a) == Decimal(b)
    ensures a == b
  {
    var s := Decimal(a);
    if a < 10 && b < 10 {
      DigitInjective(a, b);
    } else if a >= 10 && b >= 10 {
      assert s[|s| - 1] == Digit(a % 10) == Digit(b % 10);
      DigitInjective(a % 10, b % 10);
      assert s[..|s| - 1] == Decimal(a / 10) == Decimal(b / 10);
      DecimalInjective(a / 10, b / 10);
    }
  }

  /** The id `getId` hands out for counter value `n`. */
  function NodeId(n: nat): (r: Id)
    ensures |r| > 8 && r[..8] == "dndnode_" && r[8..] == Decimal(n)
    ensures forall i :: 8 <= i < |r| ==> '0' <= r[i] <= '9'
  {
    "dndnode_" + Decimal(n)
  }

  /** Ids for different counter values differ. */
  lemma NodeIdInjective(a: nat, b: nat)
    requires a != b
    ensures NodeId(a) != NodeId(b)
  {
    if NodeId(a) == NodeId(b) {
      assert NodeId(a)[8..] == Decimal(a) && NodeId(b)[8..] == Decimal(b);
      DecimalInjective(a, b);
    }
  }

  /**
   * While every node on the canvas carries an id drawn from the counter below
   * its current value, the next id is not yet in use.
   */
  lemma NextIdIsFresh(nodes: seq<Node>, n: nat)
    requires forall m :: m in nodes ==> exists k: nat :: k < n && m.id == NodeId(k)
    ensures NodeId(n) !in NodeIds(nodes)
  {
    if NodeId(n) in NodeIds(nodes) {
      var m :| m in nodes && m.id == NodeId(n);
      var k: nat :| k < n && m.id == NodeId(k);
      NodeIdInjective(k, n);
    }
  }

  /** The module-level counter `id` behind `getId`. */
  class IdCounter {
    var id: nat

    constructor ()
      ensures id == 0
    {
      id := 0;
    }

    /** `getId`: the id for the current counter value; the counter moves on by one. */
    method GetId() returns (newId: Id)
      modifies this
      ensures newId == NodeId(old(id)) && id == old(id) + 1
    {
      newId := NodeId(id);
      id := id + 1;
    }
  }

  // ---------------------------------------------------------------------------
  // Dropping a node

  /** The initial `data` of a dropped node of type `nodeType`. */
  function DefaultData(nodeType: string): (data: map<string, string>)
    ensures "imageUrl" in data <==> nodeType == ImageNodeType
    ensures "label" in data <==> nodeType != ImageNodeType
    ensures "imageUrl" in data ==> data["imageUrl"] == ""
    ensures "label" in data ==> data["label"] == "text message"
    ensures |data.Keys| == 1
  {
    if nodeType == ImageNodeType then map["imageUrl" := ""] else map["label" := "text message"]
  }

  /**
   * `onDrop`: a drop without a node type (absent or empty) changes nothing;
   * otherwise a fresh id is drawn, the flow is snapshotted and the new node is
   * appended with the default data of its type.
   */
  method OnDrop(history: UndoRedo, counter: IdCounter, dropType: Option<string>)
    requires history.Valid()
    modifies history, counter
    ensures history.Valid()
    ensures (dropType.None? || dropType.value == "") ==>
      history.State() == old(history.State()) && counter.id == old(counter.id)
    ensures dropType.Some? && dropType.value != "" ==>
      && counter.id == old(counter.id) + 1
      && history.State() == RecordStep(old(history.State())).(present := Snapshot(
           old(history.nodes) + [Node(NodeId(old(counter.id)), dropType.value, DefaultData(dropType.value))],
           old(history.edges)))
  {
    if dropType.None? || dropType.value == "" {
      return;
    }
    var nodeType := dropType.value;
    var defaultData := DefaultData(nodeType);
    var newId := counter.GetId();
    var newNode := Node(newId, nodeType, defaultData);
    history.TakeSnapshot();
    history.SetNodes(history.nodes + [newNode]);
  }
}
