/** An optional value, for lookups that may find nothing. */
module Wrappers {

  datatype Option<+T> = None | Some(value: T)
}

/**
 * The value types shared by every part of the flow builder: message nodes,
 * the directed edges between them, and a proposed connection.
 */
module FlowGraph {

  /** Node and edge identifiers are strings (`dndnode_<n>` for dropped nodes). */
  type Id = string

  /** The two node types the canvas offers. */
  const TextNodeType: string := "textNode"
  const ImageNodeType: string := "imageNode"

  /**
   * A message node. `data` is the node's payload object: a text node keeps its
   * message under "label", an image node its address under "imageUrl"; other
   * keys are carried along untouched. The canvas position is not modelled.
   */
  datatype Node = Node(id: Id, nodeType: string, data: map<string, string>)

  /** A directed link `source -> target`. */
  datatype Edge = Edge(source: Id, target: Id)

  /** A connection the user proposes by dragging from one handle to another. */
  datatype Connection = Connection(source: Id, target: Id)

  /** The set of ids carried by the nodes of `nodes`. */
  function NodeIds(nodes: seq<Node>): set<Id>
  {
    set n | n in nodes :: n.id
  }
}
