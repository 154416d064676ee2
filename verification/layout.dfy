/**
 Node layout: every configuration entry with a count becomes a column of nodes
 centred vertically on 0. The column of an entry sits at its layer field times
 HSpacing from a start that depends only on the configuration's length, so the
 column positions are symmetric about XOffset when entry e carries layer e.
 A null or empty entry keeps its position, so the nodes actually drawn may
 still sit off-centre.
 Ids are handed out consecutively in the order the entries are walked.
 */
module Layout {
  import opened FcnnTypes

  /** The y of the first node of a layer of `numNodes` nodes. The halving is
      exact: the result is precisely minus half the layer's height. */
  function StartY(numNodes: int): (r: int)
    ensures 2 * r == -((numNodes - 1) * VSpacing)
  {
    var totalHeight := (numNodes - 1) * VSpacing;
    HalveExact((numNodes - 1) * (VSpacing / 2));
    0 - totalHeight / 2
  }

  /** Halving an even number loses nothing. */
  lemma HalveExact(m: int)
    ensures (2 * m) / 2 == m
  {
  }

  /** The x of layer 0 in a configuration of `numLayers` entries. The halving
      is exact: the result is precisely XOffset minus half the total width. */
  function StartX(numLayers: int): (r: int)
    ensures 2 * r == 2 * XOffset - (numLayers - 1) * HSpacing
  {
    var totalWidth := (numLayers - 1) * HSpacing;
    XOffset - totalWidth / 2
  }

  /** The nodes one entry emits when the running id is `firstId`: nothing for
      a null count, otherwise one node per loop turn. */
  function EntryNodes(e: LayerEntry, numLayers: int, firstId: int): (r: seq<Node>)
    ensures |r| == Count(e)
  {
    match e.nodes
    case None => []
    case Some(n) =>
      var startX := StartX(numLayers);
      var startY := StartY(n);
      seq(if n > 0 then n else 0,
          i => Node(firstId + i, startX + e.layer * HSpacing, startY + i * VSpacing, e.layer))
  }

  /** The x of every node of layer `layer`, in closed form. */
  function ColumnX(numLayers: int, layer: int): int
  {
    XOffset - (numLayers - 1) * (HSpacing / 2) + layer * HSpacing
  }

  /** The y of node `i` of a layer of `count` nodes, in closed form: its
      signed distance from the middle of the layer, in half spacings. */
  function RowY(count: int, i: int): int
  {
    (2 * i - (count - 1)) * (VSpacing / 2)
  }

  /** The nodes emitted by walking `entries` in order, in a configuration
      whose length is `numLayers`. The running id always equals the number of
      nodes emitted so far. */
  function NodesOf(entries: seq<LayerEntry>, numLayers: int): (r: seq<Node>)
    ensures |r| == TotalCount(entries)
    ensures forall k :: 0 <= k < |r| ==> r[k].id == k
    ensures forall k :: 0 <= k < |r| ==> r[k].cx == ColumnX(numLayers, r[k].layer)
    decreases |entries|
  {
    if |entries| == 0 then []
    else
      var before := NodesOf(entries[..|entries| - 1], numLayers);
      before + EntryNodes(entries[|entries| - 1], numLayers, |before|)
  }

  /** generateNodes: the laid-out nodes of a configuration. */
  function GenerateNodes(config: Config): (r: seq<Node>)
    ensures |r| == TotalCount(config)
    ensures forall k :: 0 <= k < |r| ==> r[k].id == k
    ensures forall a, b :: 0 <= a < |r| && 0 <= b < |r| && a != b ==> r[a].id != r[b].id
    ensures forall k :: 0 <= k < |r| ==> r[k].cx == ColumnX(|config|, r[k].layer)
  {
    NodesOf(config, |config|)
  }

  /** The id of the first node entry `e` emits: the count of all entries before it. */
  function Offset(entries: seq<LayerEntry>, e: int): nat
    requires 0 <= e <= |entries|
  {
    TotalCount(entries[..e])
  }

  /** `nodes` is exactly the layout of `entries` under `numLayers`: one node
      per emitted slot, each at the closed-form position of its entry. */
  ghost predicate LaidOutIn(entries: seq<LayerEntry>, numLayers: int, nodes: seq<Node>)
  {
    && |nodes| == TotalCount(entries)
    && forall e, k :: 0 <= e < |entries| && Offset(entries, e) <= k < Offset(entries, e) + Count(entries[e]) ==>
         k < |nodes| &&
         nodes[k] == Node(k, ColumnX(numLayers, entries[e].layer),
                          RowY(Count(entries[e]), k - Offset(entries, e)), entries[e].layer)
  }

  /** `nodes` is exactly the layout of the whole configuration. */
  ghost predicate LaidOut(config: Config, nodes: seq<Node>)
  {
    LaidOutIn(config, |config|, nodes)
  }

  /** Dropping the last entry does not move the start of an earlier entry. */
  lemma OffsetOfPrefix(entries: seq<LayerEntry>, e: int)
    requires 0 <= e < |entries|
    ensures Offset(entries[..|entries| - 1], e) == Offset(entries, e)
  {
    assert entries[..|entries| - 1][..e] == entries[..e];
  }

  /** Entry `e` starts where entry `e - 1` ends. */
  lemma OffsetStep(entries: seq<LayerEntry>, e: int)
    requires 0 <= e < |entries|
    ensures Offset(entries, e + 1) == Offset(entries, e) + Count(entries[e])
  {
    assert entries[..e + 1][..e] == entries[..e];
  }

  /** Every entry's slots lie inside the emitted nodes. */
  lemma {:induction false} OffsetBound(entries: seq<LayerEntry>, e: int)
    requires 0 <= e < |entries|
    ensures Offset(entries, e) + Count(entries[e]) <= TotalCount(entries)
    decreases |entries|
  {
    if e == |entries| - 1 {
      OffsetStep(entries, e);
      assert entries[..e + 1] == entries;
    } else {
      var before := entries[..|entries| - 1];
      OffsetBound(before, e);
      OffsetOfPrefix(entries, e);
    }
  }

  /** The emitted y of node `i` of an entry with `n` requested nodes is its closed form. */
  lemma RowYMatches(n: int, i: int)
    ensures StartY(n) + i * VSpacing == RowY(n, i)
  {
  }

  /** A slot of an earlier entry keeps the node the shorter walk put there. */
  lemma PrefixSlotLaidOut(entries: seq<LayerEntry>, numLayers: int, e: int, k: int)
    requires 0 <= e < |entries| - 1
    requires Offset(entries, e) <= k < Offset(entries, e) + Count(entries[e])
    requires LaidOutIn(entries[..|entries| - 1], numLayers, NodesOf(entries[..|entries| - 1], numLayers))
    ensures k < |NodesOf(entries, numLayers)|
    ensures NodesOf(entries, numLayers)[k] == Node(k, ColumnX(numLayers, entries[e].layer),
                                                   RowY(Count(entries[e]), k - Offset(entries, e)), entries[e].layer)
  {
    var prefix := entries[..|entries| - 1];
    var before := NodesOf(prefix, numLayers);
    OffsetOfPrefix(entries, e);
    OffsetBound(prefix, e);
    assert prefix[e] == entries[e];
    assert NodesOf(entries, numLayers) == before + EntryNodes(entries[|entries| - 1], numLayers, |before|);
    assert NodesOf(entries, numLayers)[k] == before[k];
  }

  /** A slot of the last entry holds the node its loop emits. */
  lemma LastSlotLaidOut(entries: seq<LayerEntry>, numLayers: int, k: int)
    requires |entries| > 0
    requires Offset(entries, |entries| - 1) <= k < Offset(entries, |entries| - 1) + Count(entries[|entries| - 1])
    ensures k < |NodesOf(entries, numLayers)|
    ensures NodesOf(entries, numLayers)[k] ==
      Node(k, ColumnX(numLayers, entries[|entries| - 1].layer),
           RowY(Count(entries[|entries| - 1]), k - Offset(entries, |entries| - 1)), entries[|entries| - 1].layer)
  {
    var prefix := entries[..|entries| - 1];
    var last := entries[|entries| - 1];
    var before := NodesOf(prefix, numLayers);
    var block := EntryNodes(last, numLayers, |before|);
    assert entries[..|entries| - 1] == prefix;
    assert NodesOf(entries, numLayers) == before + block;
    var i := k - |before|;
    RowYMatches(last.nodes.value, i);
    assert block[i] == Node(|before| + i, StartX(numLayers) + last.layer * HSpacing,
                            StartY(last.nodes.value) + i * VSpacing, last.layer);
  }

  /** Any slot of any entry holds its closed-form node, given that the walk
      without the last entry is laid out. */
  lemma SlotLaidOut(entries: seq<LayerEntry>, numLayers: int, e: int, k: int)
    requires 0 <= e < |entries|
    requires Offset(entries, e) <= k < Offset(entries, e) + Count(entries[e])
    requires LaidOutIn(entries[..|entries| - 1], numLayers, NodesOf(entries[..|entries| - 1], numLayers))
    ensures k < |NodesOf(entries, numLayers)|
    ensures NodesOf(entries, numLayers)[k] == Node(k, ColumnX(numLayers, entries[e].layer),
                                                   RowY(Count(entries[e]), k - Offset(entries, e)), entries[e].layer)
  {
    if e < |entries| - 1 {
      PrefixSlotLaidOut(entries, numLayers, e, k);
    } else {
      LastSlotLaidOut(entries, numLayers, k);
    }
  }

  /** NodesOf puts every node at its closed-form position. */
  lemma {:induction false} NodesOfLaidOut(entries: seq<LayerEntry>, numLayers: int)
    ensures LaidOutIn(entries, numLayers, NodesOf(entries, numLayers))
    decreases |entries|
  {
    if |entries| > 0 {
      NodesOfLaidOut(entries[..|entries| - 1], numLayers);
      forall e, k | 0 <= e < |entries| && Offset(entries, e) <= k < Offset(entries, e) + Count(entries[e]) {
        SlotLaidOut(entries, numLayers, e, k);
      }
    }
  }

  /** generateNodes lays the configuration out exactly as LaidOut describes. */
  lemma NodesLaidOut(config: Config)
    ensures LaidOut(config, GenerateNodes(config))
  {
    NodesOfLaidOut(config, |config|);
  }

  /** Every emitted slot belongs to some entry. */
  lemma {:induction false} SlotOwner(entries: seq<LayerEntry>, k: int) returns (e: int)
    requires 0 <= k < TotalCount(entries)
    ensures 0 <= e < |entries|
    ensures Offset(entries, e) <= k < Offset(entries, e) + Count(entries[e])
    decreases |entries|
  {
    var prefix := entries[..|entries| - 1];
    if k < TotalCount(prefix) {
      e := SlotOwner(prefix, k);
      OffsetOfPrefix(entries, e);
    } else {
      e := |entries| - 1;
      assert entries[..e] == prefix;
    }
  }

  /** LaidOut pins the nodes down completely: at most one sequence satisfies it. */
  lemma LaidOutUnique(entries: seq<LayerEntry>, numLayers: int, a: seq<Node>, b: seq<Node>)
    requires LaidOutIn(entries, numLayers, a) && LaidOutIn(entries, numLayers, b)
    ensures a == b
  {
    forall k | 0 <= k < |a|
      ensures a[k] == b[k]
    {
      var e := SlotOwner(entries, k);
    }
  }

  /** Within one entry: all nodes share one x, consecutive nodes are VSpacing
      apart going down, and the column is symmetric about y = 0. */
  lemma EntryGeometry(config: Config, e: int, i: int)
    requires 0 <= e < |config| && 0 <= i < Count(config[e])
    ensures var nodes := GenerateNodes(config);
            var base := Offset(config, e);
            var n := Count(config[e]);
            && base + n <= |nodes|
            && nodes[base + i].layer == config[e].layer
            && nodes[base + i].cx == nodes[base].cx
            && nodes[base + i].cy == nodes[base].cy + i * VSpacing
            && nodes[base + i].cy + nodes[base + (n - 1 - i)].cy == 0
  {
    NodesLaidOut(config);
    OffsetBound(config, e);
    var nodes := GenerateNodes(config);
    var base := Offset(config, e);
    var n := Count(config[e]);
    assert nodes[base] == Node(base, ColumnX(|config|, config[e].layer), RowY(n, 0), config[e].layer);
    assert nodes[base + i] == Node(base + i, ColumnX(|config|, config[e].layer), RowY(n, i), config[e].layer);
    assert nodes[base + (n - 1 - i)] ==
      Node(base + (n - 1 - i), ColumnX(|config|, config[e].layer), RowY(n, n - 1 - i), config[e].layer);
  }

  /** The entries carry layers 0, 1, 2, ... in order, as the default
      configuration does. */
  predicate LayersInOrder(config: Config)
  {
    forall e :: 0 <= e < |config| ==> config[e].layer == e
  }

  /** Slot `k` of entry `e` holds that entry's closed-form node. */
  lemma SlotNode(config: Config, e: int, k: int)
    requires 0 <= e < |config| && Offset(config, e) <= k < Offset(config, e) + Count(config[e])
    ensures k < |GenerateNodes(config)|
    ensures GenerateNodes(config)[k] ==
      Node(k, ColumnX(|config|, config[e].layer), RowY(Count(config[e]), k - Offset(config, e)), config[e].layer)
  {
    NodesLaidOut(config);
  }

  /** With layers in order, column positions are symmetric about XOffset:
      when entry e and the mirror entry |config| - 1 - e both draw nodes, a
      node of one and a node of the other sit symmetrically about XOffset. */
  lemma ColumnsCentred(config: Config, e: int, i: int, i': int)
    requires LayersInOrder(config) && 0 <= e < |config|
    requires 0 <= i < Count(config[e]) && 0 <= i' < Count(config[|config| - 1 - e])
    ensures var nodes := GenerateNodes(config);
            var a := Offset(config, e) + i;
            var b := Offset(config, |config| - 1 - e) + i';
            && a < |nodes| && b < |nodes|
            && nodes[a].cx + nodes[b].cx == 2 * XOffset
  {
    var e' := |config| - 1 - e;
    SlotNode(config, e, Offset(config, e) + i);
    SlotNode(config, e', Offset(config, e') + i');
  }

  /** The entries whose count is not null, in order. */
  function Present(entries: seq<LayerEntry>): (r: seq<LayerEntry>)
    ensures forall k :: 0 <= k < |r| ==> r[k].nodes.Some?
    ensures |r| <= |entries|
  {
    if |entries| == 0 then []
    else if entries[|entries| - 1].nodes.None? then Present(entries[..|entries| - 1])
    else Present(entries[..|entries| - 1]) + [entries[|entries| - 1]]
  }

  /** Null entries emit nothing and do not disturb ids: walking only the
      entries with a count gives the same nodes. */
  lemma {:induction false} NullEntriesEmitNothing(entries: seq<LayerEntry>, numLayers: int)
    ensures NodesOf(entries, numLayers) == NodesOf(Present(entries), numLayers)
    decreases |entries|
  {
    if |entries| > 0 {
      var prefix := entries[..|entries| - 1];
      NullEntriesEmitNothing(prefix, numLayers);
      if entries[|entries| - 1].nodes.Some? {
        var p := Present(entries);
        assert p[..|p| - 1] == Present(prefix);
      }
    }
  }

  /** The same entries under a configuration length one larger shift every
      node left by half a layer spacing and change nothing else. */
  lemma {:induction false} WiderShiftsLeft(entries: seq<LayerEntry>, numLayers: int)
    ensures |NodesOf(entries, numLayers + 1)| == |NodesOf(entries, numLayers)|
    ensures forall k :: 0 <= k < |NodesOf(entries, numLayers)| ==>
      NodesOf(entries, numLayers + 1)[k] ==
        NodesOf(entries, numLayers)[k].(cx := NodesOf(entries, numLayers)[k].cx - HSpacing / 2)
    decreases |entries|
  {
    if |entries| > 0 {
      var prefix := entries[..|entries| - 1];
      WiderShiftsLeft(prefix, numLayers);
      var wide := NodesOf(entries, numLayers + 1);
      var narrow := NodesOf(entries, numLayers);
      var last := entries[|entries| - 1];
      var m := |NodesOf(prefix, numLayers)|;
      forall k | 0 <= k < |narrow|
        ensures wide[k] == narrow[k].(cx := narrow[k].cx - HSpacing / 2)
      {
        if k >= m {
          assert wide[k] == EntryNodes(last, numLayers + 1, m)[k - m];
          assert narrow[k] == EntryNodes(last, numLayers, m)[k - m];
        }
      }
    }
  }

  /** A null entry appended to the configuration adds no node, yet it still
      counts towards the configuration's length: every node moves left by
      half a layer spacing. */
  lemma NullEntryShiftsLeft(config: Config, layer: int)
    ensures |GenerateNodes(config + [LayerEntry(layer, None)])| == |GenerateNodes(config)|
    ensures forall k :: 0 <= k < |GenerateNodes(config)| ==>
      GenerateNodes(config + [LayerEntry(layer, None)])[k] ==
        GenerateNodes(config)[k].(cx := GenerateNodes(config)[k].cx - HSpacing / 2)
  {
    var longer := config + [LayerEntry(layer, None)];
    assert longer[..|longer| - 1] == config;
    assert NodesOf(longer, |longer|) == NodesOf(config, |config| + 1);
    WiderShiftsLeft(config, |config|);
  }
}
