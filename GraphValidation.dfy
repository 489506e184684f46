/**
 * The adjacency builder and the depth-first cycle detector of
 * src/utils/graphValidation.js.
 */
module GraphValidation {

  import opened FlowGraph

  /** An adjacency view: node id to the targets of its outgoing edges, in edge order. */
  type Graph = map<Id, seq<Id>>

  /** The targets of the edges of `edges` whose source is `source`, in edge order. */
  function TargetsFrom(edges: seq<Edge>, source: Id): (targets: seq<Id>)
    ensures |targets| <= |edges|
    ensures forall t :: t in targets <==> exists i :: 0 <= i < |edges| && edges[i].source == source && edges[i].target == t
  {
    if edges == [] then []
    else
      var last := edges[|edges| - 1];
      TargetsFrom(edges[..|edges| - 1], source) + (if last.source == source then [last.target] else [])
  }

  /** The adjacency view that `buildGraph` produces. */
  function Adjacency(nodes: seq<Node>, edges: seq<Edge>): (graph: Graph)
    ensures graph.Keys == NodeIds(nodes)
    ensures forall id, t :: id in graph ==>
      (t in graph[id] <==> exists i :: 0 <= i < |edges| && edges[i].source == id && edges[i].target == t)
  {
    map id | id in NodeIds(nodes) :: TargetsFrom(edges, id)
  }

  /** `graph[nodeId] || []`: the neighbour list the search walks. */
  function Neighbors(graph: Graph, u: Id): (r: seq<Id>)
    ensures u !in graph ==> r == []
    ensures u in graph ==> r == graph[u]
  {
    if u in graph then graph[u] else []
  }

  /**
   * In the adjacency view of a flow, the search walks from `u` to exactly the
   * targets of `u`'s edges when `u` is a node, and nowhere when it is not
   * (a dangling edge target, say), whatever edges leave it.
   */
  lemma FlowNeighbors(nodes: seq<Node>, edges: seq<Edge>, u: Id, w: Id)
    ensures w in Neighbors(Adjacency(nodes, edges), u) <==>
      u in NodeIds(nodes) && exists i :: 0 <= i < |edges| && edges[i].source == u && edges[i].target == w
  {
  }

  /** Each step of `p` follows an edge of the adjacency view. */
  ghost predicate IsWalk(graph: Graph, p: seq<Id>)
  {
    forall i :: 0 <= i < |p| - 1 ==> p[i + 1] in Neighbors(graph, p[i])
  }

  /** A closed walk of at least one step. */
  ghost predicate IsCycle(graph: Graph, p: seq<Id>)
  {
    |p| >= 2 && p[0] == p[|p| - 1] && IsWalk(graph, p)
  }

  /** The reference meaning of "the flow has an infinite loop". */
  ghost predicate HasDirectedCycle(graph: Graph)
  {
    exists p :: IsCycle(graph, p)
  }

  /**
   * The state of a depth-first search: the recursion stack holds exactly the
   * nodes of the current path, which is a walk; every visited node is either on
   * the stack or finished, never both; finished nodes are ranked below `clock`.
   */
  ghost predicate SearchState(graph: Graph, visited: set<Id>, stack: set<Id>, path: seq<Id>,
                              rank: map<Id, nat>, clock: nat)
  {
    && (forall v :: v in stack <==> v in path)
    && (forall v :: v in visited <==> v in stack || v in rank)
    && (forall v :: v in stack ==> v !in rank)
    && IsWalk(graph, path)
    && Ranked(graph, rank)
    && (forall u :: u in rank ==> rank[u] < clock)
  }

  /**
   * `rank` numbers finished nodes so that every neighbour of a finished node is
   * finished and has a smaller number.
   */
  ghost predicate Ranked(graph: Graph, rank: map<Id, nat>)
  {
    forall u, w {:trigger w in Neighbors(graph, u)} ::
      u in rank && w in Neighbors(graph, u) ==> w in rank && rank[w] < rank[u]
  }

  // ---------------------------------------------------------------------------
  // buildGraph

  /**
   * Fills the adjacency map in place: first one empty list per node id, then
   * each edge whose source is a key appends its target to that key's list.
   */
  method BuildGraph(nodes: seq<Node>, edges: seq<Edge>) returns (graph: Graph)
    ensures graph == Adjacency(nodes, edges)
  {
    graph := map[];
    for i := 0 to |nodes|
      invariant graph.Keys == NodeIds(nodes[..i])
      invariant forall id :: id in graph ==> graph[id] == []
    {
      assert nodes[..i + 1] == nodes[..i] + [nodes[i]];
      graph := graph[nodes[i].id := []];
    }
    assert nodes[..|nodes|] == nodes;
    for j := 0 to |edges|
      invariant graph.Keys == NodeIds(nodes)
      invariant forall id :: id in graph ==> graph[id] == TargetsFrom(edges[..j], id)
    {
      var edge := edges[j];
      assert edges[..j + 1][..j] == edges[..j];
      if edge.source in graph {
        graph := graph[edge.source := graph[edge.source] + [edge.target]];
      }
    }
    assert edges[..|edges|] == edges;
  }

  // ---------------------------------------------------------------------------
  // hasCycle

  /**
   * `dfs(nodeId)` of `hasCycle`. The `visited` and `recursionStack` sets that
   * the nested function shares with `hasCycle` are passed in and handed back;
   * the ghost `path` is the current recursion path and `rank` records the
   * order in which nodes finished. The node is entered, its neighbours are
   * explored in list order, and a cycle is reported as soon as one of them
   * reports one; the node leaves the stack only when all its neighbours have
   * finished.
   */
  method Dfs(graph: Graph, nodeId: Id, visited: set<Id>, recursionStack: set<Id>,
             ghost path: seq<Id>, ghost rank: map<Id, nat>, ghost clock: nat)
    returns (found: bool, visited': set<Id>, recursionStack': set<Id>,
             ghost rank': map<Id, nat>, ghost clock': nat)
    requires SearchState(graph, visited, recursionStack, path, rank, clock)
    requires nodeId !in visited
    requires path == [] || nodeId in Neighbors(graph, path[|path| - 1])
    decreases |graph.Keys - visited|, 0
    ensures found ==> HasDirectedCycle(graph)
    ensures !found ==> SearchState(graph, visited', recursionStack', path, rank', clock')
    ensures !found ==> recursionStack' == recursionStack
    ensures !found ==> visited + {nodeId} <= visited' && rank.Keys <= rank'.Keys
    ensures !found ==> nodeId in rank' && forall w :: w in Neighbors(graph, nodeId) ==> w in rank'
  {
    visited' := visited + {nodeId};
    recursionStack' := recursionStack + {nodeId};
    ghost var path' := path + [nodeId];
    rank', clock' := rank, clock;
    EnterKeepsState(graph, visited, recursionStack, path, rank, clock, nodeId);
    var neighbors := Neighbors(graph, nodeId);
    for i := 0 to |neighbors|
      invariant SearchState(graph, visited', recursionStack', path', rank', clock')
      invariant recursionStack' == recursionStack + {nodeId}
      invariant nodeId !in rank'
      invariant visited + {nodeId} <= visited' && rank.Keys <= rank'.Keys
      invariant forall k :: 0 <= k < i ==> neighbors[k] in rank'
    {
      StrictSubsetCard(graph.Keys - visited', graph.Keys - visited, nodeId);
      ghost var finished := rank';
      found, visited', recursionStack', rank', clock' :=
        VisitNeighbor(graph, nodeId, neighbors[i], visited', recursionStack', path', rank', clock');
      if found {
        return;
      }
      RankGrows(finished, rank', neighbors, i);
    }
    FinishKeepsState(graph, visited', recursionStack, path, rank', clock', nodeId);
    recursionStack' := recursionStack' - {nodeId};
    rank' := rank'[nodeId := clock'];
    clock' := clock' + 1;
    found := false;
  }

  /**
   * One turn of the neighbour loop of `dfs`: an unvisited neighbour is
   * searched; a visited neighbour still on the recursion stack closes a
   * cycle; a visited neighbour that has left the stack is skipped.
   */
  method VisitNeighbor(graph: Graph, nodeId: Id, neighborId: Id, visited: set<Id>, recursionStack: set<Id>,
                       ghost path: seq<Id>, ghost rank: map<Id, nat>, ghost clock: nat)
    returns (found: bool, visited': set<Id>, recursionStack': set<Id>,
             ghost rank': map<Id, nat>, ghost clock': nat)
    requires SearchState(graph, visited, recursionStack, path, rank, clock)
    requires path != [] && path[|path| - 1] == nodeId
    requires neighborId in Neighbors(graph, nodeId)
    decreases |graph.Keys - visited|, 1
    ensures found ==> HasDirectedCycle(graph)
    ensures !found ==> SearchState(graph, visited', recursionStack', path, rank', clock')
    ensures !found ==> recursionStack' == recursionStack
    ensures !found ==> visited <= visited' && rank.Keys <= rank'.Keys && neighborId in rank'
    ensures neighborId in visited && neighborId in recursionStack ==> found
    ensures neighborId in visited && neighborId !in recursionStack ==>
      !found && visited' == visited && recursionStack' == recursionStack
  {
    if neighborId !in visited {
      found, visited', recursionStack', rank', clock' :=
        Dfs(graph, neighborId, visited, recursionStack, path, rank, clock);
    } else if neighborId in recursionStack {
      BackEdgeCloses(graph, path, neighborId);
      found, visited', recursionStack', rank', clock' := true, visited, recursionStack, rank, clock;
    } else {
      found, visited', recursionStack', rank', clock' := false, visited, recursionStack, rank, clock;
    }
  }

  /**
   * `hasCycle`: builds the adjacency view, starts a search from every node not
   * yet visited, so every component is covered, and answers whether the
   * adjacency view has a cycle.
   */
  method HasCycle(nodes: seq<Node>, edges: seq<Edge>) returns (found: bool)
    ensures found <==> HasDirectedCycle(Adjacency(nodes, edges))
  {
    var graph := BuildGraph(nodes, edges);
    var visited: set<Id> := {};
    var recursionStack: set<Id> := {};
    ghost var rank: map<Id, nat> := map[];
    ghost var clock: nat := 0;
    for i := 0 to |nodes|
      invariant SearchState(graph, visited, recursionStack, [], rank, clock)
      invariant forall k :: 0 <= k < i ==> nodes[k].id in rank
    {
      var id := nodes[i].id;
      if id !in visited {
        found, visited, recursionStack, rank, clock := Dfs(graph, id, visited, recursionStack, [], rank, clock);
        if found {
          return;
        }
      }
    }
    forall u | u in graph
      ensures u in rank
    {
      var n :| n in nodes && n.id == u;
      var k :| 0 <= k < |nodes| && nodes[k] == n;
    }
    RankedHasNoCycle(graph, rank);
    found := false;
  }

  // ---------------------------------------------------------------------------
  // Lemmas

  lemma SubsetCard(a: set<Id>, b: set<Id>)
    requires a <= b
    ensures |a| <= |b|
    decreases a
  {
    if a != {} {
      var x :| x in a;
      SubsetCard(a - {x}, b - {x});
    }
  }

  lemma StrictSubsetCard(a: set<Id>, b: set<Id>, x: Id)
    requires x in b && a <= b - {x}
    ensures |a| < |b|
  {
    SubsetCard(a, b - {x});
  }

  /** A neighbour of the last path node that is already on the path closes a cycle. */
  lemma BackEdgeCloses(graph: Graph, path: seq<Id>, v: Id)
    requires IsWalk(graph, path)
    requires v in path && v in Neighbors(graph, path[|path| - 1])
    ensures HasDirectedCycle(graph)
  {
    var j :| 0 <= j < |path| && path[j] == v;
    var cycle := path[j..] + [path[j]];
    forall i | 0 <= i < |cycle| - 1
      ensures cycle[i + 1] in Neighbors(graph, cycle[i])
    {
      if i < |path| - j - 1 {
        assert cycle[i] == path[j + i] && cycle[i + 1] == path[j + i + 1];
      }
    }
    assert IsCycle(graph, cycle);
  }

  /** The neighbours finished so far stay finished as the finished set grows. */
  lemma RankGrows(finished: map<Id, nat>, rank: map<Id, nat>, neighbors: seq<Id>, i: nat)
    requires i < |neighbors| && finished.Keys <= rank.Keys && neighbors[i] in rank
    requires forall k :: 0 <= k < i ==> neighbors[k] in finished
    ensures forall k :: 0 <= k < i + 1 ==> neighbors[k] in rank
  {
  }

  /** Entering an unvisited successor of the last path node keeps the search state. */
  lemma EnterKeepsState(graph: Graph, visited: set<Id>, stack: set<Id>, path: seq<Id>,
                        rank: map<Id, nat>, clock: nat, u: Id)
    requires SearchState(graph, visited, stack, path, rank, clock)
    requires u !in visited
    requires path == [] || u in Neighbors(graph, path[|path| - 1])
    ensures SearchState(graph, visited + {u}, stack + {u}, path + [u], rank, clock)
  {
  }

  /**
   * Popping the last node `u` of the path once all its neighbours have
   * finished, and ranking it next, keeps the search state.
   */
  lemma FinishKeepsState(graph: Graph, visited: set<Id>, stack: set<Id>, path: seq<Id>,
                         rank: map<Id, nat>, clock: nat, u: Id)
    requires SearchState(graph, visited, stack + {u}, path + [u], rank, clock)
    requires u !in stack && u !in rank && u !in path
    requires forall w :: w in Neighbors(graph, u) ==> w in rank
    ensures SearchState(graph, visited, (stack + {u}) - {u}, path, rank[u := clock], clock + 1)
  {
    var p := path + [u];
    assert forall i :: 0 <= i < |path| ==> p[i] == path[i];
    assert forall v :: v in path ==> v in p;
  }


  /**
   * The neighbour lists keep edge order: the targets contributed by a later
   * batch of edges follow those of an earlier batch.
   */
  lemma {:induction false} TargetsFromAppend(edges1: seq<Edge>, edges2: seq<Edge>, source: Id)
    ensures TargetsFrom(edges1 + edges2, source) == TargetsFrom(edges1, source) + TargetsFrom(edges2, source)
    decreases |edges2|
  {
    if edges2 == [] {
      assert edges1 + edges2 == edges1;
    } else {
      var init := edges2[..|edges2| - 1];
      var last := edges2[|edges2| - 1];
      assert (edges1 + edges2)[..|edges1 + edges2| - 1] == edges1 + init;
      TargetsFromAppend(edges1, init, source);
    }
  }

  /** An edge whose source is not a node id leaves the adjacency view unchanged. */
  lemma DroppedEdge(nodes: seq<Node>, edges: seq<Edge>, e: Edge)
    requires e.source !in NodeIds(nodes)
    ensures Adjacency(nodes, edges + [e]) == Adjacency(nodes, edges)
  {
    forall id | id in NodeIds(nodes)
      ensures TargetsFrom(edges + [e], id) == TargetsFrom(edges, id)
    {
      assert (edges + [e])[..|edges|] == edges;
    }
  }

  /** With no nodes the adjacency view is empty, so it has no cycle. */
  lemma NoNodesNoCycle(edges: seq<Edge>)
    ensures !HasDirectedCycle(Adjacency([], edges))
  {
    RankedHasNoCycle(Adjacency([], edges), map[]);

  }

  /** An edge from a node to itself is a cycle of the adjacency view. */
  lemma SelfLoopIsCycle(nodes: seq<Node>, edges: seq<Edge>, i: nat)
    requires i < |edges| && edges[i].source == edges[i].target
    requires edges[i].source in NodeIds(nodes)
    ensures HasDirectedCycle(Adjacency(nodes, edges))
  {
    var u := edges[i].source;
    var graph := Adjacency(nodes, edges);
    assert u in Neighbors(graph, u);
    assert IsCycle(graph, [u, u]);
  }

  /** When every key is ranked, no closed walk exists: ranks fall along every step. */
  lemma RankedHasNoCycle(graph: Graph, rank: map<Id, nat>)
    requires Ranked(graph, rank)
    requires graph.Keys <= rank.Keys
    ensures !HasDirectedCycle(graph)
  {
    if p :| IsCycle(graph, p) {
      assert p[1] in Neighbors(graph, p[0]);
      var k := 1;
      while k < |p|
        invariant 1 <= k <= |p|
        invariant p[0] in rank && p[k - 1] in rank && rank[p[k - 1]] + (k - 1) <= rank[p[0]]
      {
        assert p[k] in Neighbors(graph, p[k - 1]);
        k := k + 1;
      }
    }
  }
}
