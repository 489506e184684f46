# Chatbot flow builder — graph integrity and history, in Dafny

This project models the logic at the heart of the chatbot flow builder. A flow
is a directed graph of message nodes joined by `source → target` edges. The
model covers six parts:

- the adjacency builder and the depth-first cycle detector (`buildGraph`,
  `hasCycle`);
- the three-way verdict of the Save button;
- the one-outgoing-edge rule for new connections, the node id counter and the
  node drop;
- the undo/redo history, with its 50-entry `past` stack and its `future` stack;
- the settings panel's by-id node update and its one-snapshot-per-burst typing
  flag;
- the parent-text lookup that feeds the reply suggester.

Modules, one per source file:

| module | file | source |
|---|---|---|
| `Wrappers`, `FlowGraph` | `FlowGraph.dfy` | the node and edge records shared by all files |
| `GraphValidation` | `GraphValidation.dfy` | `src/utils/graphValidation.js` |
| `Header` | `Header.dfy` | `src/Header.jsx` (`handleSave`) |
| `App` | `App.dfy` | `src/App.jsx` (`onConnect`, `isValidConnection`, `getId`, `onDrop`) |
| `UseUndoRedo` | `UseUndoRedo.dfy` | `src/hooks/useUndoRedo.js` |
| `SettingsPanel` | `SettingsPanel.dfy` | `src/SettingsPanel.jsx` |
| `GraphUtils` | `GraphUtils.dfy` | `src/utils/graphUtils.js` |

Each part takes the source's own form:

- `buildGraph` fills a map in two loops.
- `dfs` is a pair of mutually recursive methods that thread the `visited` and
  `recursionStack` sets.
- `handleSave` counts in a loop.
- The history hook is a class, `UseUndoRedo.UndoRedo`, whose fields are the
  current nodes and edges and the two stacks. Its methods are proved against
  the pure steps `RecordStep`, `UndoStep` and `RedoStep`, and the round-trip
  and bound laws are lemmas about those steps.
- The settings panel is a class that holds the typing flag and the history.
- The module-level id counter is a class with one field.
- The pure helpers (`getParentNodeText`, the `nds.map` update, `edges.some`)
  are functions.

The cycle detector's contract is an if-and-only-if against a reference
definition: the adjacency view has a closed walk of at least one step.

- A `true` answer comes with such a walk: the back edge to a node on the
  recursion stack closes the current path.
- A `false` answer comes with a ghost ranking of the finished nodes that
  strictly decreases along every edge. Such a ranking rules out every cycle.

## Model

| member | source | states |
|---|---|---|
| GraphValidation.TargetsFrom | src/utils/graphValidation.js:16-20 | the neighbour list of a source holds exactly the targets of the edges leaving it, one per edge, so it is never longer than the edge list |
| GraphValidation.Adjacency | src/utils/graphValidation.js:7-23 | the adjacency view has one key per node id and no other key; a key's list contains `t` iff some edge goes from that key to `t` |
| GraphValidation.BuildGraph | src/utils/graphValidation.js:7-23 | the two in-place loops (one empty list per node, then an append per edge whose source is a key) produce exactly the adjacency view |
| GraphValidation.Neighbors | src/utils/graphValidation.js:42 | a node missing from the adjacency view has the empty neighbour list; a present one has its own list |
| GraphValidation.FlowNeighbors | src/utils/graphValidation.js:7-42 | in a flow's adjacency view the search walks from a node exactly to the targets of its edges, and from a dangling edge target nowhere |
| GraphValidation.TargetsFromAppend | src/utils/graphValidation.js:16-20 | neighbour lists keep edge order: the targets contributed by later edges follow those of earlier edges |
| GraphValidation.DroppedEdge | src/utils/graphValidation.js:17-19 | an edge whose source is not a node id leaves the adjacency view unchanged |
| GraphValidation.Dfs | src/utils/graphValidation.js:38-57 | `dfs` is entered only on an unvisited node. A `true` result means the graph has a cycle. A `false` result means the node and all its neighbours have finished, the recursion stack and path are restored, and the visited set and the finished nodes only grew |
| GraphValidation.VisitNeighbor | src/utils/graphValidation.js:43-52 | an unvisited neighbour is searched; a visited neighbour on the recursion stack reports a cycle, and that report is sound; a visited neighbour off the stack is skipped with `false`, leaving `visited` and the recursion stack unchanged |
| GraphValidation.HasCycle | src/utils/graphValidation.js:31-67 | `hasCycle` returns true iff the adjacency view of the nodes and edges has a directed cycle; this covers every component, because the search starts from every unvisited node |
| GraphValidation.NoNodesNoCycle | src/utils/graphValidation.js:60-66 | with no nodes there is no cycle, so `hasCycle` is false |
| GraphValidation.SelfLoopIsCycle | src/utils/graphValidation.js:39-50 | an edge from a listed node to itself is a cycle of the adjacency view |
| GraphValidation.BackEdgeCloses | src/utils/graphValidation.js:49-50 | a neighbour of the current node that is already on the recursion path closes a cycle |
| GraphValidation.RankedHasNoCycle | src/utils/graphValidation.js:54-66 | when every key is finished and ranks fall along every edge out of a finished node, the graph has no cycle |
| GraphValidation.EnterKeepsState | src/utils/graphValidation.js:39-40 | adding an unvisited successor to `visited`, to the recursion stack and to the path keeps the search invariant |
| GraphValidation.FinishKeepsState | src/utils/graphValidation.js:54-56 | a node leaves the recursion stack only after all its neighbours have finished; removing it then and ranking it next keeps the search invariant |
| Header.DanglingStarts | src/Header.jsx:15-20 | the count of nodes with no incoming edge never exceeds the node count |
| Header.TargetIds | src/Header.jsx:13 | the targeted ids are exactly the targets of the edges |
| Header.DanglingStartsCountsPositions | src/Header.jsx:13-20 | the running count equals the number of positions holding a node whose id is not the target of any edge |
| Header.RuleOneFails | src/Header.jsx:24 | rule 1 fails iff there is more than one node and more than one node position holds an untargeted id; a flow of zero or one node never fails it |
| Header.HandleSave | src/Header.jsx:7-37 | the verdict is `InfiniteLoop` iff there is a cycle. It is `CannotSave` iff there is no cycle and rule 1 fails (more than one node and more than one dangling start). It is `Saved` iff both rules pass |
| Header.SingleStartPassesRuleOne | src/Header.jsx:9-24 | when every node but the first is targeted, at most one node is a dangling start and rule 1 passes; zero or one node never fails rule 1 |
| UseUndoRedo.RecordStep | src/hooks/useUndoRedo.js:12-26 | the current flow is pushed on `past` and nothing is evicted below 50 entries; a full `past` drops exactly its oldest entry; `future` is cleared (so a redo right after it does nothing); the bound is kept |
| UseUndoRedo.UndoStep | src/hooks/useUndoRedo.js:28-45 | with an empty `past` nothing changes; otherwise the newest `past` entry becomes current and the old current flow goes to the front of `future`; the total stack size is unchanged |
| UseUndoRedo.RedoStep | src/hooks/useUndoRedo.js:47-64 | with an empty `future` nothing changes; otherwise `future[0]` becomes current and the old current flow is appended to `past`; the total stack size is unchanged |
| UseUndoRedo.RedoAfterUndo | src/hooks/useUndoRedo.js:28-64 | redo right after undo restores the exact flow, `past` and `future` |
| UseUndoRedo.UndoAfterRedo | src/hooks/useUndoRedo.js:28-64 | undo right after redo restores the exact flow, `past` and `future` |
| UseUndoRedo.UndoRevertsEdit | src/hooks/useUndoRedo.js:12-45 | undo right after snapshot-then-change brings back the flow from before the change and offers the changed flow for redo; `past` is as before, or without its oldest entry when it was full |
| UseUndoRedo.UndoNFromPast | src/hooks/useUndoRedo.js:28-45 | after `n` undos the current flow and `past` are read off the old `past` |
| UseUndoRedo.EditsStack | src/hooks/useUndoRedo.js:12-26 | while nothing is evicted, successive edits stack up in `past` in the order they were made |
| UseUndoRedo.UndoAllEdits | src/hooks/useUndoRedo.js:12-45 | up to 50 edits can all be undone: as many undos as edits bring back the flow and the `past` from before the first edit |
| UseUndoRedo.ContainsRemoval | src/hooks/useUndoRedo.js:68 | a change batch counts as destructive iff some change in it has type `remove` |
| UseUndoRedo.UndoRedo.constructor | src/hooks/useUndoRedo.js:4-10 | the hook starts with the initial nodes and edges and empty stacks, within the bound |
| UseUndoRedo.UndoRedo.CanUndo | src/hooks/useUndoRedo.js:91 | `canUndo` holds exactly when an undo would change the state |
| UseUndoRedo.UndoRedo.CanRedo | src/hooks/useUndoRedo.js:92 | `canRedo` holds exactly when a redo would change the state |
| UseUndoRedo.UndoRedo.TakeSnapshot | src/hooks/useUndoRedo.js:12-26 | the new state is `RecordStep` of the old one; `|past| + |future| <= 50` is kept |
| UseUndoRedo.UndoRedo.Undo | src/hooks/useUndoRedo.js:28-45 | the new state is `UndoStep` of the old one; the bound is kept |
| UseUndoRedo.UndoRedo.Redo | src/hooks/useUndoRedo.js:47-64 | the new state is `RedoStep` of the old one; the bound is kept, although `redo` appends to `past` without eviction |
| UseUndoRedo.UndoRedo.SetNodes | src/hooks/useUndoRedo.js:6 | `setNodes` replaces the current nodes and touches neither the edges nor the stacks |
| UseUndoRedo.UndoRedo.SetEdges | src/hooks/useUndoRedo.js:7 | `setEdges` replaces the current edges and touches neither the nodes nor the stacks |
| UseUndoRedo.UndoRedo.OnNodesChange | src/hooks/useUndoRedo.js:67-72 | a node batch is snapshotted iff it contains a removal, and the snapshot is taken before the batch is applied to the nodes |
| UseUndoRedo.UndoRedo.OnEdgesChange | src/hooks/useUndoRedo.js:74-79 | an edge batch is snapshotted iff it contains a removal, and the snapshot is taken before the batch is applied to the edges |
| App.HasOutgoingEdge | src/App.jsx:65 | true iff some edge has the given source |
| App.IsValidConnection | src/App.jsx:78-86 | a connection is accepted iff no existing edge has its source |
| App.Connect | src/App.jsx:61-75 | a source that already has an outgoing edge leaves the edges unchanged; otherwise exactly one edge with the given source and target is appended |
| App.ConnectKeepsOutDegree | src/App.jsx:61-75 | starting from edges where every node has at most one outgoing edge, a connection keeps that true |
| App.ConnectAllKeepsOutDegree | src/App.jsx:61-75 | any sequence of `onConnect` calls keeps every out-degree at most one |
| App.ConnectAgreesWithValidity | src/App.jsx:61-86 | `onConnect` adds an edge exactly when `isValidConnection` accepts the connection; neither rejects a self-loop |
| App.OnConnect | src/App.jsx:61-75 | a rejected connection changes nothing and takes no snapshot; an accepted one takes a snapshot and then adds the edge; the history bound is kept |
| App.Decimal | src/App.jsx:19 | the counter's numeral is a non-empty string of decimal digits with no leading zero (for counter values below 2^53) |
| App.NodeId | src/App.jsx:19 | an id is `dndnode_` followed by the counter's decimal numeral |
| App.DecimalInjective | src/App.jsx:19 | different counter values have different decimal numerals |
| App.NodeIdInjective | src/App.jsx:18-19 | `dndnode_<n>` ids for different counter values differ |
| App.NextIdIsFresh | src/App.jsx:18-19 | while every node id came from the counter below its current value, the next id is not in use |
| App.IdCounter.constructor | src/App.jsx:18 | the counter starts at 0 |
| App.IdCounter.GetId | src/App.jsx:19 | `getId` returns `dndnode_<n>` for the current value `n` and moves the counter to `n + 1` |
| App.DefaultData | src/App.jsx:110-112 | an `imageNode` gets exactly `imageUrl: ''`; any other type gets exactly `label: 'text message'` |
| App.OnDrop | src/App.jsx:93-125 | a drop with an absent or empty type changes nothing. Any other drop draws one id, takes a snapshot, then appends one node of that type: an `imageNode` gets `imageUrl: ''` and any other type gets `label: 'text message'` |
| SettingsPanel.UpdateNodeData | src/SettingsPanel.jsx:24-38 | every node keeps its position in the list. The node with the active id gets only `data[key]` replaced, and keeps its other fields and data keys. Every other node is unchanged |
| SettingsPanel.LastWriteWins | src/SettingsPanel.jsx:24-38 | writing the same field twice leaves only the second value |
| SettingsPanel.Keystroke | src/SettingsPanel.jsx:17-38 | a keystroke with the flag clear is one `Edit` (snapshot, then the field write); with the flag set the stacks are untouched; either way the edges are kept, every node with the active id gets `data[key]` set to the value, and the history bound is kept |
| SettingsPanel.BurstWhileTyping | src/SettingsPanel.jsx:15-45 | while the typing flag is set, keystrokes take no snapshot and only the last value typed stays |
| SettingsPanel.BurstIsOneEdit | src/SettingsPanel.jsx:15-45 | a burst started with the flag clear is one undoable edit: a single snapshot of the flow from before the burst, and the last value typed |
| SettingsPanel.SettingsPanel.constructor | src/SettingsPanel.jsx:7 | the typing flag starts clear |
| SettingsPanel.SettingsPanel.HandleChange | src/SettingsPanel.jsx:15-45 | the first keystroke of a burst snapshots once and sets the flag; later ones do not snapshot; the selected node's label becomes the new text |
| SettingsPanel.SettingsPanel.OnImageUrlChange | src/SettingsPanel.jsx:124-163 | the same burst rule; only the selected node's `imageUrl` changes |
| SettingsPanel.SettingsPanel.QuietPeriodElapsed | src/SettingsPanel.jsx:41-44 | after the quiet period the flag is clear, so the next keystroke snapshots again |
| SettingsPanel.SettingsPanel.HandleGenerateAI | src/SettingsPanel.jsx:47-77 | whatever the burst state, a snapshot comes first. The parent text is looked up in the flow as it was, and the suggestion becomes the selected node's label. The typing flag is untouched |
| GraphUtils.FindIncoming | src/utils/graphUtils.js:12 | no result iff no edge targets the node; otherwise the result is the first edge in edge order that does |
| GraphUtils.FindNode | src/utils/graphUtils.js:19 | no result iff no node has the id; otherwise the first node with that id |
| GraphUtils.LabelOf | src/utils/graphUtils.js:22 | a label is given iff it is present and non-empty |
| GraphUtils.GetParentNodeText | src/utils/graphUtils.js:10-26 | no incoming edge gives null. A non-null result is the non-empty label of a text node whose id is the source of the first edge targeting the node |
| GraphUtils.LaterEdgesIgnored | src/utils/graphUtils.js:12 | once some edge targets the node, edges appended after it do not change the result |
| GraphUtils.ParentFromFirstIncoming | src/utils/graphUtils.js:12-25 | the result is decided by the first incoming edge. A missing parent or a parent that is not a text node gives null; otherwise the parent's label is given, or null when it is empty |

## Left out

- React rendering and JSX are not modelled. This covers `src/TextNode.jsx`, `src/ImageNode.jsx`, `src/NodesPanel.jsx`, `src/Sidebar.jsx` and the markup of every other file; it has no logic to state.
- Image export (`src/utils/downloadImage.js`) is not modelled: it is DOM access and floating-point viewport arithmetic.
- The suggestion service (`src/utils/aiService.js`) is not modelled. `HandleGenerateAI` takes it as a function parameter, and the asynchronous wait is not modelled.
- The keyboard shortcut handler (src/App.jsx:37-59) is left out: it is DOM events and platform detection.
- The toast messages are left out; the verdict is a datatype instead.
- The Google image-address rewrite in the image field (src/SettingsPanel.jsx:133-144) is left out, because it depends on the browser's URL parser. `OnImageUrlChange` stores the address as given.
- Real timers are left out. The one-second quiet period is the explicit event `QuietPeriodElapsed`, and restarting the timer on each keystroke is not modelled.
- The canvas library's change handlers (`applyNodeChanges`, `applyEdgeChanges`) are parameters of `OnNodesChange` and `OnEdgesChange`.
- Edge ids, handles and node positions are not modelled.
- `addEdge` is an append of one edge. Its duplicate check never applies after the out-degree guard, because no edge with that source exists yet.
- React state setters are plain assignments, and deep copies are free, because Dafny values are immutable. `setPast` and `setFuture` apply at once rather than at the next render.
- Dfs: `visited` and `recursionStack` are the shared sets of `hasCycle`. They are passed to `dfs` and handed back rather than mutated through a closure; no other code can observe the difference.
- Plain-object keys that JavaScript inherits (such as `constructor`) are not modelled: `graph[id] || []` is a map lookup.
- The selected node is given by its id. `activeNode` in the settings panel always carries the selected node's id.
- The panel's `if (takeSnapshot)` guard always holds here, because the caller always passes `takeSnapshot`.
- `buildGraph` drops edges whose source is not a node id, but it keeps edges whose target is not a node id. The model follows the code (src/utils/graphValidation.js:17-18): `GraphValidation.Adjacency` lists such a target, which then has no neighbours of its own.
- IdCounter.GetId: the model's counter is an unbounded natural that always moves to `n + 1`. The source's counter is a JavaScript number (a double). At 2^53 `id++` stops advancing and every later drop reuses the same id, and from 10^21 on the template literal prints an exponent numeral (`dndnode_1e+21`). `App.Decimal`, `App.NodeIdInjective` and `App.NextIdIsFresh` therefore speak for counter values below 2^53 only.
