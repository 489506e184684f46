/**
 * The undo/redo history of src/hooks/useUndoRedo.js. The current flow and the
 * two stacks of snapshots form a `History` value; `RecordStep`, `UndoStep` and
 * `RedoStep` say what `takeSnapshot`, `undo` and `redo` do to it, and the
 * class `UndoRedo` holds the same four pieces of state as fields that its
 * methods update.
 */
module UseUndoRedo {

  import opened FlowGraph

  /** At most this many snapshots are kept in `past` after a snapshot is taken. */
  const MaxHistory: nat := 50

  /** A deep copy of the flow. */
  datatype Snapshot = Snapshot(nodes: seq<Node>, edges: seq<Edge>)

  /** The current flow, the undo stack (newest last) and the redo stack (next first). */
  datatype History = History(present: Snapshot, past: seq<Snapshot>, future: seq<Snapshot>)

  /** The bound that every reachable history keeps. */
  predicate Bounded(h: History)
  {
    |h.past| + |h.future| <= MaxHistory
  }

  /**
   * `takeSnapshot`: the current flow is pushed on `past`, the oldest entry is
   * evicted when that makes `past` longer than `MaxHistory`, and `future` is
   * cleared.
   */
  function RecordStep(h: History): (r: History)
    ensures r.present == h.present && r.future == []
    ensures |h.past| < MaxHistory ==> r.past == h.past + [h.present]
    ensures |h.past| >= MaxHistory ==> r.past == h.past[1..] + [h.present]
    ensures |h.past| <= MaxHistory ==> |r.past| <= MaxHistory
    ensures Bounded(h) ==> Bounded(r)
  {
    var newPast := h.past + [h.present];
    History(h.present, if |newPast| > MaxHistory then newPast[1..] else newPast, [])
  }

  /**
   * `undo`: nothing happens when `past` is empty; otherwise the newest entry
   * of `past` becomes current and the previous current flow goes to the front
   * of `future`.
   */
  function UndoStep(h: History): (r: History)
    ensures h.past == [] ==> r == h
    ensures h.past != [] ==> r.past + [r.present] == h.past && r.future == [h.present] + h.future
    ensures |r.past| + |r.future| == |h.past| + |h.future|
  {
    if |h.past| == 0 then h
    else History(h.past[|h.past| - 1], h.past[..|h.past| - 1], [h.present] + h.future)
  }

  /**
   * `redo`: nothing happens when `future` is empty; otherwise the first entry
   * of `future` becomes current and the previous current flow is appended to
   * `past` (with no eviction).
   */
  function RedoStep(h: History): (r: History)
    ensures h.future == [] ==> r == h
    ensures h.future != [] ==> [r.present] + r.future == h.future && r.past == h.past + [h.present]
    ensures |r.past| + |r.future| == |h.past| + |h.future|
  {
    if |h.future| == 0 then h
    else History(h.future[0], h.past + [h.present], h.future[1..])
  }

  /** A redo right after an undo restores the history exactly. */
  lemma RedoAfterUndo(h: History)
    requires h.past != []
    ensures RedoStep(UndoStep(h)) == h
  {
  }

  /** An undo right after a redo restores the history exactly. */
  lemma UndoAfterRedo(h: History)
    requires h.future != []
    ensures UndoStep(RedoStep(h)) == h
  {
  }

  /** Snapshot the current flow, then replace it: one undoable edit. */
  function Edit(h: History, s: Snapshot): History
  {
    RecordStep(h).(present := s)
  }

  /** The edits of `edits`, in order. */
  function Edits(h: History, edits: seq<Snapshot>): History
  {
    if edits == [] then h else Edit(Edits(h, edits[..|edits| - 1]), edits[|edits| - 1])
  }

  /** `n` undos in a row. */
  function UndoN(h: History, n: nat): History
    decreases n
  {
    if n == 0 then h else UndoN(UndoStep(h), n - 1)
  }

  /**
   * An undo right after an edit brings back the flow from before the edit and
   * offers the edited flow for redo; the undo stack is as before unless it was
   * full, in which case its oldest entry is gone.
   */
  lemma UndoRevertsEdit(h: History, s: Snapshot)
    ensures UndoStep(Edit(h, s)).present == h.present
    ensures UndoStep(Edit(h, s)).future == [s]
    ensures |h.past| < MaxHistory ==> UndoStep(Edit(h, s)).past == h.past
    ensures |h.past| == MaxHistory ==> UndoStep(Edit(h, s)).past == h.past[1..]
  {
  }

  /** After `n` undos the current flow and `past` are read off the old `past`. */
  lemma {:induction false} UndoNFromPast(h: History, n: nat)
    requires n <= |h.past|
    decreases n
    ensures UndoN(h, n).past == h.past[..|h.past| - n]
    ensures UndoN(h, n).present == (h.past + [h.present])[|h.past| - n]
  {
    if n > 0 {
      var u := UndoStep(h);
      UndoNFromPast(u, n - 1);
      assert u.past + [u.present] == h.past;
      assert u.past == h.past[..|h.past| - 1];
    }
  }

  /** While nothing is evicted, edits stack up in `past` in the order they were made. */
  lemma {:induction false} EditsStack(h: History, edits: seq<Snapshot>)
    requires |h.past| + |edits| <= MaxHistory
    ensures Edits(h, edits).past + [Edits(h, edits).present] == h.past + [h.present] + edits
  {
    if edits != [] {
      var init := edits[..|edits| - 1];
      EditsStack(h, init);
      var before := Edits(h, init);
      assert |before.past| == |h.past| + |init|;
      assert Edits(h, edits).past == before.past + [before.present];
      assert init + [edits[|edits| - 1]] == edits;
    }
  }

  /**
   * Up to `MaxHistory` edits can all be undone: as many undos as edits bring
   * back the flow and the undo stack from before the first edit.
   */
  lemma UndoAllEdits(h: History, edits: seq<Snapshot>)
    requires |h.past| + |edits| <= MaxHistory
    ensures UndoN(Edits(h, edits), |edits|).present == h.present
    ensures UndoN(Edits(h, edits), |edits|).past == h.past
  {
    var e := Edits(h, edits);
    EditsStack(h, edits);
    UndoNFromPast(e, |edits|);
    SplitStack(e.past, e.present, h.past, h.present, edits);
  }

  lemma SplitStack(past: seq<Snapshot>, present: Snapshot, oldPast: seq<Snapshot>, oldPresent: Snapshot,
                   edits: seq<Snapshot>)
    requires past + [present] == oldPast + [oldPresent] + edits
    ensures |past| == |oldPast| + |edits|
    ensures past[..|past| - |edits|] == oldPast
    ensures (past + [present])[|past| - |edits|] == oldPresent
  {
    var whole := past + [present];
    assert |whole| == |oldPast| + 1 + |edits|;
    assert whole[|oldPast|] == (oldPast + [oldPresent] + edits)[|oldPast|];
    assert past[..|oldPast|] == whole[..|oldPast|];
  }

  /** A change reported by the canvas; only its type matters here. */
  datatype Change = Change(changeType: string, id: Id)

  /** `changes.some((c) => c.type === 'remove')`. */
  function ContainsRemoval(changes: seq<Change>): (b: bool)
    ensures b <==> exists i :: 0 <= i < |changes| && changes[i].changeType == "remove"
  {
    if changes == [] then false
    else changes[0].changeType == "remove" || ContainsRemoval(changes[1..])
  }

  /**
   * The state of the `useUndoRedo` hook: the current nodes and edges and the
   * `past` and `future` stacks.
   */
  class UndoRedo {
    var nodes: seq<Node>
    var edges: seq<Edge>
    var past: seq<Snapshot>
    var future: seq<Snapshot>

    function State(): History
      reads this
    {
      History(Snapshot(nodes, edges), past, future)
    }

    ghost predicate Valid()
      reads this
    {
      Bounded(State())
    }

    constructor (initialNodes: seq<Node>, initialEdges: seq<Edge>)
      ensures Valid()
      ensures nodes == initialNodes && edges == initialEdges && past == [] && future == []
    {
      nodes, edges := initialNodes, initialEdges;
      past, future := [], [];
    }

    /** `canUndo`: exactly when an undo would change something. */
    function CanUndo(): (b: bool)
      reads this
      ensures b <==> UndoStep(State()) != State()
    {
      |past| > 0
    }

    /** `canRedo`: exactly when a redo would change something. */
    function CanRedo(): (b: bool)
      reads this
      ensures b <==> RedoStep(State()) != State()
    {
      |future| > 0
    }

    method TakeSnapshot()
      requires Valid()
      modifies this
      ensures Valid()
      ensures State() == RecordStep(old(State()))
    {
      var newPast := past + [Snapshot(nodes, edges)];
      if |newPast| > MaxHistory {
        newPast := newPast[1..];
      }
      past := newPast;
      future := [];
    }

    method Undo()
      requires Valid()
      modifies this
      ensures Valid()
      ensures State() == UndoStep(old(State()))
    {
      if |past| == 0 {
        return;
      }
      var previousState := past[|past| - 1];
      var newPast := past[..|past| - 1];
      future := [Snapshot(nodes, edges)] + future;
      past := newPast;
      nodes := previousState.nodes;
      edges := previousState.edges;
    }

    method Redo()
      requires Valid()
      modifies this
      ensures Valid()
      ensures State() == RedoStep(old(State()))
    {
      if |future| == 0 {
        return;
      }
      var nextState := future[0];
      var newFuture := future[1..];
      past := past + [Snapshot(nodes, edges)];
      future := newFuture;
      nodes := nextState.nodes;
      edges := nextState.edges;
    }

    /** `setNodes`: replaces the current nodes and leaves the history alone. */
    method SetNodes(newNodes: seq<Node>)
      requires Valid()
      modifies this
      ensures Valid()
      ensures State() == old(State()).(present := Snapshot(newNodes, old(edges)))
    {
      nodes := newNodes;
    }

    /** `setEdges`: replaces the current edges and leaves the history alone. */
    method SetEdges(newEdges: seq<Edge>)
      requires Valid()
      modifies this
      ensures Valid()
      ensures State() == old(State()).(present := Snapshot(old(nodes), newEdges))
    {
      edges := newEdges;
    }

    /**
     * `onNodesChange`: a batch holding a removal is snapshotted first; then
     * the canvas's own change handler is applied to the current nodes.
     */
    method OnNodesChange(changes: seq<Change>, applyNodeChanges: (seq<Change>, seq<Node>) -> seq<Node>)
      requires Valid()
      modifies this
      ensures Valid()
      ensures var base := if ContainsRemoval(changes) then RecordStep(old(State())) else old(State());
              State() == base.(present := Snapshot(applyNodeChanges(changes, old(nodes)), old(edges)))
    {
      if ContainsRemoval(changes) {
        TakeSnapshot();
      }
      SetNodes(applyNodeChanges(changes, nodes));
    }

    /**
     * `onEdgesChange`: a batch holding a removal is snapshotted first; then
     * the canvas's own change handler is applied to the current edges.
     */
    method OnEdgesChange(changes: seq<Change>, applyEdgeChanges: (seq<Change>, seq<Edge>) -> seq<Edge>)
      requires Valid()
      modifies this
      ensures Valid()
      ensures var base := if ContainsRemoval(changes) then RecordStep(old(State())) else old(State());
              State() == base.(present := Snapshot(old(nodes), applyEdgeChanges(changes, old(edges))))
    {
      if ContainsRemoval(changes) {
        TakeSnapshot();
      }
      SetEdges(applyEdgeChanges(changes, edges));
    }
  }
}
