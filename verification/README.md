# Fully connected network diagram: layout and links

This project models the graph construction behind a fully connected
feed-forward network diagram. A configuration lists, per entry, a layer
index and a node count (possibly null). `generateNodes` turns it into
laid-out nodes:

- Ids are consecutive in the order the entries are walked.
- Every layer's column is centred vertically on 0.
- Each column's x is its entry's layer field times `hSpacing`, counted from
  a start that depends only on the number of entries. When entry e carries
  layer field e (`LayersInOrder`, as in the default configuration), the
  column positions are symmetric about `xOffset`. A null or empty entry
  still keeps its position, because it counts in the number of entries, so
  the nodes actually drawn may sit off-centre: for the entries (layer 0, 1
  node) and (layer 1, null) the only node is at x = 0. Without
  `LayersInOrder` the positions need not be symmetric (a single entry with
  layer 5 sits at x = 1100), though some such configurations still are.

`generateLinks` links every node to every node of the next layer, and
`regenerate` composes the two.

Modules:

- `FcnnTypes` (`types.dfy`): the entities `LayerEntry`, `Node`, `Link`,
  `Graph` and `Option`; the spacing constants `XOffset = 100`,
  `VSpacing = 50` and `HSpacing = 200`; the per-entry node count; and the
  default configuration of 16, 12, 10 and 1 nodes.
- `Layout` (`layout.dfy`): `calculateStartY`, `calculateStartX` and
  `generateNodes`. `LaidOut` is an independent description: the closed-form
  position of every node slot. The module proves that it holds of the
  generated nodes and that it fixes them uniquely.
- `Links` (`links.dfy`): `generateLinks` as the nested i/j scan. `Rank` is
  an independent counting formula for the position of each adjacent pair's
  link. The module proves that every adjacent pair's link sits at its rank,
  that ranks follow i-major, j-minor order, and that the links are exactly
  those of adjacent pairs.
- `Network` (`network.dfy`): `regenerate`, the link count in terms of the
  configuration, the next-layer property of every link, and the default
  diagram's 39 nodes and 322 links.

All coordinates are integers. `(n - 1) * 50` and `(L - 1) * 200` are even,
so the source's division by 2 is exact (`StartY`, `StartX`). The model
therefore uses `int` throughout, with no rounding.

The Svelte store's `subscribe` calls its callback synchronously, once, with
the current value. The model takes the configuration as a plain sequence and
models that single call.

The source's comments on `calculateStartX` and `calculateStartY` speak of a
canvas midpoint of 150. The code itself centres each column on 0
vertically. Horizontally, it places the column positions symmetrically about
`xOffset` (100) when the layer fields are 0, 1, 2, ... in entry order, and
null or empty entries keep their positions. The model follows the code.

## Model

| member | source | states |
|---|---|---|
| Layout.StartY | src/lib/utils/fcnn.ts:35-38 | the first y of a layer of n nodes is exactly minus half of (n - 1) * vSpacing, with no rounding |
| Layout.StartX | src/lib/utils/fcnn.ts:41-44 | the x of layer 0 is exactly xOffset minus half of (L - 1) * hSpacing, with no rounding |
| Layout.EntryNodes | src/lib/utils/fcnn.ts:49-62 | an entry emits one node per loop turn: none for a null count or a count of at most 0, otherwise the count |
| Layout.NodesOf | src/lib/utils/fcnn.ts:47-63 | walking entries in order emits the sum of their counts; node k has id k; every node's x is the closed form for its layer and the configuration length |
| Layout.GenerateNodes | src/lib/utils/fcnn.ts:28-67 | node count equals the sum of non-null, positive counts; ids are 0, 1, 2, ... in emission order, hence unique; cx depends only on the layer field and the configuration length |
| Layout.OffsetStep | src/lib/utils/fcnn.ts:32-61 | an entry's ids start exactly where the previous entry's ids stop |
| Layout.OffsetBound | src/lib/utils/fcnn.ts:48-62 | every entry's id range lies inside the emitted nodes |
| Layout.NodesLaidOut | src/lib/utils/fcnn.ts:48-62 | every slot k of entry e holds the node with id k, that entry's layer, x = xOffset - (L - 1) * hSpacing / 2 + layer * hSpacing and y = -(n - 1) * vSpacing / 2 + i * vSpacing, where i is k minus the entry's first id |
| Layout.SlotOwner | src/lib/utils/fcnn.ts:48-62 | every emitted node belongs to the id range of some entry |
| Layout.LaidOutUnique | src/lib/utils/fcnn.ts:48-62 | the closed-form placement determines the node sequence completely |
| Layout.RowYMatches | src/lib/utils/fcnn.ts:52-58 | for every count n, startY + i * vSpacing equals the centred closed form of node i's y |
| Layout.SlotNode | src/lib/utils/fcnn.ts:51-59 | slot k of entry e holds the node with id k, that entry's layer, and the closed-form x and y |
| Layout.ColumnsCentred | src/lib/utils/fcnn.ts:41-44 | when entry e carries layer field e and both entry e and entry L - 1 - e draw nodes, a node of one and a node of the other have x coordinates summing to 2 * xOffset |
| Layout.EntryGeometry | src/lib/utils/fcnn.ts:51-59 | within one entry all nodes share one cx and the entry's layer; cy grows by vSpacing per node; cy of node i plus cy of node n - 1 - i is 0 |
| Layout.NullEntriesEmitNothing | src/lib/utils/fcnn.ts:48-49 | skipping every null entry (keeping the configuration length) gives exactly the same nodes |
| Layout.WiderShiftsLeft | src/lib/utils/fcnn.ts:41-44 | the same entries under a configuration length one larger shift every node left by hSpacing / 2 and change nothing else |
| Layout.NullEntryShiftsLeft | src/lib/utils/fcnn.ts:49-51 | appending a null entry adds no node but shifts every node left by hSpacing / 2, because the entry still counts in config.length |
| Links.RowLinks | src/lib/utils/fcnn.ts:74-81 | the inner scan over j < m emits one link per node among the first m that is on the next layer of node i |
| Links.LinksUpTo | src/lib/utils/fcnn.ts:73-82 | the outer scan over i < m emits, per node i, as many links as nodes on its next layer |
| Links.GenerateLinks | src/lib/utils/fcnn.ts:70-85 | the link count equals the number of ordered pairs (i, j) with nodes[j].layer == nodes[i].layer + 1 |
| Links.LinkAtRank | src/lib/utils/fcnn.ts:73-80 | every adjacent pair (i, j) has the link (id of i, id of j) at position Rank(i, j) |
| Links.RankOrdered | src/lib/utils/fcnn.ts:73-74 | a lexicographically smaller adjacent pair (first by i, then by j) has a strictly smaller position |
| Links.RowLinkSource | src/lib/utils/fcnn.ts:74-80 | every link of row i joins node i to a later-layer node j and sits at j's rank within the row |
| Links.LinkUpToSource | src/lib/utils/fcnn.ts:73-82 | every link emitted so far joins an adjacent pair and sits at that pair's rank |
| Links.LinkRanked | src/lib/utils/fcnn.ts:73-82 | the link at position k joins the ids of an adjacent pair whose rank is k |
| Links.LinksMembership | src/lib/utils/fcnn.ts:75-80 | a link is generated if and only if it joins the ids of some pair (i, j) with nodes[j].layer == nodes[i].layer + 1 |
| Network.Regenerate | src/lib/utils/fcnn.ts:87-96 | the returned nodes are exactly the configuration's layout; the link count is the configuration's pair count; every link joins two existing nodes on consecutive layers |
| Network.RegenerateIgnoresPrevious | src/lib/utils/fcnn.ts:88-96 | the nodes and links passed in have no effect on the result |
| Network.LayerSizeOfNodes | src/lib/utils/fcnn.ts:54-59 | the number of generated nodes on layer l is the sum of counts of the entries whose layer field is l |
| Network.BlockFanout | src/lib/utils/fcnn.ts:73-80 | the ordered adjacent pairs out of one entry's nodes number its count times the count asked for on the next layer |
| Network.FanoutSplit | src/lib/utils/fcnn.ts:48-62 | the adjacent pairs out of a walk are those out of the walk without its last entry plus those out of that entry's nodes |
| Network.FanoutOfNodes | src/lib/utils/fcnn.ts:73-80 | the ordered adjacent pairs out of the nodes of a run of entries are the sum, over those entries, of count times next-layer count |
| Network.LinkCount | src/lib/utils/fcnn.ts:73-82 | the diagram has, summed over entries, count times next-layer count links |
| Network.LinksJoinNextLayer | src/lib/utils/fcnn.ts:75-79 | every link's source and target are node ids whose layers differ by exactly +1 |
| Network.NoSelfLinks | src/lib/utils/fcnn.ts:75 | no link joins a node to itself |
| Network.LayerCountInOrder | src/lib/utils/fcnn.ts:20-26 | when entry e has layer field e, layer l is asked for by entry l alone |
| Network.PairCountInOrder | src/lib/utils/fcnn.ts:73-82 | when entry e has layer field e, the link count is the sum over consecutive entries of the product of their counts |
| Network.DefaultNodeCount | src/lib/utils/fcnn.ts:20-26 | the default configuration yields 16 + 12 + 10 + 1 = 39 nodes |
| Network.DefaultLinkCount | src/lib/utils/fcnn.ts:20-26 | the default configuration yields 16 * 12 + 12 * 10 + 10 * 1 = 322 links |

## Left out

- Svelte store machinery (`writable`, `subscribe`): the configuration is a plain argument, and only the one synchronous callback is modelled. The subscription is never released, so later store updates would append to the same array; that is not modelled.
- `src/lib/utils/panningLogic.ts` is not part of this model. It is DOM event handling, and its zoom arithmetic is floating point.
- Non-integer node counts and layer fields, and a missing (undefined) count: JavaScript allows them, but the model takes integers and a null-or-integer count.
- JavaScript numbers are doubles, so the source is exact only up to 2^53. The model uses unbounded integers and does not model loss of precision beyond that.
- SVG rendering and the UI components.
