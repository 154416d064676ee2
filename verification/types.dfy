/**
 The data of a fully connected feed-forward network diagram: the per-layer
 configuration the user edits, and the laid-out nodes and links derived from it.
 */
module FcnnTypes {

  /** A value that may be absent; models the `number | null` node count. */
  datatype Option<+T> = None | Some(value: T)

  /** One configuration entry: the layer index it draws and how many nodes it
      asks for (`None` when the count field is null). */
  datatype LayerEntry = LayerEntry(layer: int, nodes: Option<int>)

  /** The configuration, in the order its entries are walked. */
  type Config = seq<LayerEntry>

  /** A laid-out node: its id, its centre coordinates and its layer. */
  datatype Node = Node(id: int, cx: int, cy: int, layer: int)

  /** A directed link between two node ids. */
  datatype Link = Link(source: int, target: int)

  /** What a regeneration hands back. */
  datatype Graph = Graph(nodes: seq<Node>, links: seq<Link>)

  /** Horizontal position of the middle of the diagram. */
  const XOffset: int := 100
  /** Vertical distance between two nodes of a layer. */
  const VSpacing: int := 50
  /** Horizontal distance between two consecutive layers. */
  const HSpacing: int := 200

  /** How many nodes an entry emits: none for a null count, and none for a
      count that is not positive, since the emitting loop does not run. */
  function Count(e: LayerEntry): nat
  {
    match e.nodes
    case None => 0
    case Some(n) => if n > 0 then n else 0
  }

  /** The number of nodes all entries of `entries` emit together. */
  function TotalCount(entries: seq<LayerEntry>): nat
  {
    if |entries| == 0 then 0
    else TotalCount(entries[..|entries| - 1]) + Count(entries[|entries| - 1])
  }

  /** The configuration the diagram starts with: 16, 12, 10 and 1 nodes. */
  const DefaultConfig: Config := [
    LayerEntry(0, Some(16)),
    LayerEntry(1, Some(12)),
    LayerEntry(2, Some(10)),
    LayerEntry(3, Some(1))
  ]
}
