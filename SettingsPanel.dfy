/**
 * The settings panel of src/SettingsPanel.jsx: editing the selected node's
 * text or image address, with one history snapshot per burst of keystrokes,
 * and applying a suggested reply.
 */
module SettingsPanel {

  import opened Wrappers
  import opened FlowGraph
  import opened UseUndoRedo
  import opened GraphUtils

  /**
   * `nds.map(...)` in the edit handlers: the node whose id is `activeId` gets
   * `data[key]` set to `value`, keeping its other fields and data keys; every
   * other node is passed through untouched.
   */
  function UpdateNodeData(nodes: seq<Node>, activeId: Id, key: string, value: string): (r: seq<Node>)
    ensures |r| == |nodes|
    ensures forall i :: 0 <= i < |nodes| && nodes[i].id == activeId ==>
      r[i] == nodes[i].(data := nodes[i].data[key := value])
    ensures forall i :: 0 <= i < |nodes| && nodes[i].id != activeId ==> r[i] == nodes[i]
  {
    if nodes == [] then []
    else
      var node := nodes[0];
      [if node.id == activeId then node.(data := node.data[key := value]) else node]
      + UpdateNodeData(nodes[1..], activeId, key, value)
  }

  /** Writing the same field twice keeps only the second value. */
  lemma LastWriteWins(nodes: seq<Node>, activeId: Id, key: string, first: string, second: string)
    ensures UpdateNodeData(UpdateNodeData(nodes, activeId, key, first), activeId, key, second)
            == UpdateNodeData(nodes, activeId, key, second)
  {
    var once := UpdateNodeData(nodes, activeId, key, first);
    var twice := UpdateNodeData(once, activeId, key, second);
    var direct := UpdateNodeData(nodes, activeId, key, second);
    forall i | 0 <= i < |nodes|
      ensures twice[i] == direct[i]
    {
      if nodes[i].id == activeId {
        assert nodes[i].data[key := first][key := second] == nodes[i].data[key := second];
      }
    }
  }

  /** The flow with `data[key]` of the active node set to `value`. */
  function WithNodeData(s: Snapshot, activeId: Id, key: string, value: string): Snapshot
  {
    s.(nodes := UpdateNodeData(s.nodes, activeId, key, value))
  }

  /**
   * One keystroke in a text or image field: a snapshot is taken only when no
   * burst is under way, then the active node's field is overwritten.
   */
  function Keystroke(typing: bool, h: History, activeId: Id, key: string, value: string): (r: History)
    ensures !typing ==> r == Edit(h, WithNodeData(h.present, activeId, key, value))
    ensures typing ==> r.past == h.past && r.future == h.future
    ensures r.present.edges == h.present.edges && |r.present.nodes| == |h.present.nodes|
    ensures forall i :: 0 <= i < |h.present.nodes| && h.present.nodes[i].id == activeId ==>
      key in r.present.nodes[i].data && r.present.nodes[i].data[key] == value
    ensures Bounded(h) ==> Bounded(r)
  {
    var base := if typing then h else RecordStep(h);
    base.(present := WithNodeData(base.present, activeId, key, value))
  }

  /** A burst of keystrokes with no quiet period in between; the flag is set after the first. */
  function Burst(typing: bool, h: History, activeId: Id, key: string, values: seq<string>): History
    decreases |values|
  {
    if values == [] then h
    else Burst(true, Keystroke(typing, h, activeId, key, values[0]), activeId, key, values[1..])
  }

  /** While a burst is under way, keystrokes take no snapshot and only the last value stays. */
  lemma {:induction false} BurstWhileTyping(h: History, activeId: Id, key: string, values: seq<string>)
    requires values != []
    decreases |values|
    ensures Burst(true, h, activeId, key, values)
            == h.(present := WithNodeData(h.present, activeId, key, values[|values| - 1]))
  {
    var next := Keystroke(true, h, activeId, key, values[0]);
    if |values| > 1 {
      BurstWhileTyping(next, activeId, key, values[1..]);
      LastWriteWins(h.present.nodes, activeId, key, values[0], values[|values| - 1]);
    }
  }

  /**
   * A whole burst started with the flag clear is a single undoable edit: one
   * snapshot of the flow from before the burst, and the last value typed.
   */
  lemma BurstIsOneEdit(h: History, activeId: Id, key: string, values: seq<string>)
    requires values != []
    ensures Burst(false, h, activeId, key, values)
            == Edit(h, WithNodeData(h.present, activeId, key, values[|values| - 1]))
  {
    var first := Keystroke(false, h, activeId, key, values[0]);
    if |values| > 1 {
      BurstWhileTyping(first, activeId, key, values[1..]);
      LastWriteWins(h.present.nodes, activeId, key, values[0], values[|values| - 1]);
    }
  }

  /**
   * The panel's state: the history it edits through, and the typing flag
   * (`typingRef.current`) that marks a burst under way.
   */
  class SettingsPanel {
    const history: UndoRedo
    var typing: bool

    ghost predicate Valid()
      reads this, history
    {
      history.Valid()
    }

    constructor (history: UndoRedo)
      requires history.Valid()
      ensures Valid() && this.history == history && !typing
    {
      this.history := history;
      typing := false;
    }

    /** `handleChange`: one keystroke in the text field of the selected node. */
    method HandleChange(selectedId: Id, newText: string)
      requires Valid()
      modifies this, history
      ensures Valid() && typing
      ensures history.State() == Keystroke(old(typing), old(history.State()), selectedId, "label", newText)
    {
      if !typing {
        history.TakeSnapshot();
        typing := true;
      }
      history.SetNodes(UpdateNodeData(history.nodes, selectedId, "label", newText));
    }

    /** The image field's `onChange`: one keystroke in the image address of the selected node. */
    method OnImageUrlChange(selectedId: Id, newUrl: string)
      requires Valid()
      modifies this, history
      ensures Valid() && typing
      ensures history.State() == Keystroke(old(typing), old(history.State()), selectedId, "imageUrl", newUrl)
    {
      if !typing {
        history.TakeSnapshot();
        typing := true;
      }
      history.SetNodes(UpdateNodeData(history.nodes, selectedId, "imageUrl", newUrl));
    }

    /** The quiet-period timer firing: the burst is over and the next keystroke snapshots again. */
    method QuietPeriodElapsed()
      modifies this
      ensures !typing
    {
      typing := false;
    }

    /**
     * `handleGenerateAI`: snapshots unconditionally, looks up the parent's text
     * in the flow as it is, asks the suggestion service (a parameter here) for
     * a reply, and writes the reply into the selected node's label. The typing
     * flag is left alone.
     */
    method HandleGenerateAI(selectedId: Id, fetchSuggestion: Option<string> -> string)
      returns (parentContext: Option<string>)
      requires Valid()
      modifies history
      ensures Valid() && typing == old(typing)
      ensures parentContext == GetParentNodeText(selectedId, old(history.nodes), old(history.edges))
      ensures history.State()
              == Edit(old(history.State()), WithNodeData(old(history.State()).present, selectedId, "label",
                                                        fetchSuggestion(parentContext)))
    {
      history.TakeSnapshot();
      parentContext := GetParentNodeText(selectedId, history.nodes, history.edges);
      var suggestion := fetchSuggestion(parentContext);
      history.SetNodes(UpdateNodeData(history.nodes, selectedId, "label", suggestion));
    }
  }
}
