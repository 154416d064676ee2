/**
 The whole diagram: regenerating nodes and links from a configuration, and
 what the two together promise: how many links there are, and that each link
 joins a node to a node of the next layer.
 */
module Network {
  import opened FcnnTypes
  import opened Layout
  import opened Links

  /** How many nodes the entries ask for on layer `l`, summed over every entry
      whose layer field is `l`. */
  function LayerCount(entries: seq<LayerEntry>, l: int): nat
  {
    if |entries| == 0 then 0
    else
      var last := entries[|entries| - 1];
      LayerCount(entries[..|entries| - 1], l) + (if last.layer == l then Count(last) else 0)
  }

  /** For each entry of `entries`, its node count times the number of nodes
      `all` asks for on the next layer, summed. */
  function PairCountOf(entries: seq<LayerEntry>, all: Config): nat
  {
    if |entries| == 0 then 0
    else
      var last := entries[|entries| - 1];
      PairCountOf(entries[..|entries| - 1], all) + Count(last) * LayerCount(all, last.layer + 1)
  }

  /** The number of links the configuration's diagram has. */
  function PairCount(config: Config): nat
  {
    PairCountOf(config, config)
  }

  /** regenerate: rebuild the nodes and then the links from the configuration.
      The previous nodes and links are only rebound, never read. */
  function Regenerate(nodes: seq<Node>, links: seq<Link>, config: Config): (r: Graph)
    ensures LaidOut(config, r.nodes)
    ensures |r.links| == PairCount(config)
    ensures forall k :: 0 <= k < |r.links| ==>
      && 0 <= r.links[k].source < |r.nodes|
      && 0 <= r.links[k].target < |r.nodes|
      && r.nodes[r.links[k].source].layer + 1 == r.nodes[r.links[k].target].layer
  {
    var nodes := GenerateNodes(config);
    var links := GenerateLinks(nodes);
    NodesLaidOut(config);
    LinkCount(config);
    LinksJoinNextLayer(config);
    Graph(nodes, links)
  }

  /** What regenerate returns does not depend on the nodes and links passed in. */
  lemma RegenerateIgnoresPrevious(config: Config, n1: seq<Node>, l1: seq<Link>, n2: seq<Node>, l2: seq<Link>)
    ensures Regenerate(n1, l1, config) == Regenerate(n2, l2, config)
  {
  }

  /** Concatenation adds layer sizes. */
  lemma {:induction false} LayerSizeAppend(a: seq<Node>, b: seq<Node>, l: int)
    ensures LayerSize(a + b, l) == LayerSize(a, l) + LayerSize(b, l)
    decreases |b|
  {
    if |b| > 0 {
      assert (a + b)[..|a + b| - 1] == a + b[..|b| - 1];
      LayerSizeAppend(a, b[..|b| - 1], l);
    } else {
      assert a + b == a;
    }
  }

  /** A sequence whose nodes all sit on layer `x` has all its nodes on `x` and none elsewhere. */
  lemma {:induction false} LayerSizeUniform(s: seq<Node>, x: int, l: int)
    requires forall k :: 0 <= k < |s| ==> s[k].layer == x
    ensures LayerSize(s, l) == if x == l then |s| else 0
    decreases |s|
  {
    if |s| > 0 {
      LayerSizeUniform(s[..|s| - 1], x, l);
    }
  }

  /** The nodes on layer `l` are exactly the ones the entries for `l` ask for. */
  lemma {:induction false} LayerSizeOfNodes(entries: seq<LayerEntry>, numLayers: int, l: int)
    ensures LayerSize(NodesOf(entries, numLayers), l) == LayerCount(entries, l)
    decreases |entries|
  {
    if |entries| > 0 {
      var prefix := entries[..|entries| - 1];
      var last := entries[|entries| - 1];
      var before := NodesOf(prefix, numLayers);
      var block := EntryNodes(last, numLayers, |before|);
      LayerSizeOfNodes(prefix, numLayers, l);
      LayerSizeAppend(before, block, l);
      LayerSizeUniform(block, last.layer, l);
    }
  }

  /** Concatenation adds pair counts. */
  lemma {:induction false} FanoutAppend(a: seq<Node>, b: seq<Node>, t: seq<Node>)
    ensures Fanout(a + b, t) == Fanout(a, t) + Fanout(b, t)
    decreases |b|
  {
    if |b| > 0 {
      assert (a + b)[..|a + b| - 1] == a + b[..|b| - 1];
      FanoutAppend(a, b[..|b| - 1], t);
    } else {
      assert a + b == a;
    }
  }

  /** Each node of a single-layer block has the same fan-out. */
  lemma {:induction false} FanoutUniform(s: seq<Node>, x: int, t: seq<Node>)
    requires forall k :: 0 <= k < |s| ==> s[k].layer == x
    ensures Fanout(s, t) == |s| * LayerSize(t, x + 1)
    decreases |s|
  {
    if |s| > 0 {
      FanoutUniform(s[..|s| - 1], x, t);
      assert |s| * LayerSize(t, x + 1) == (|s| - 1) * LayerSize(t, x + 1) + LayerSize(t, x + 1);
    }
  }

  /** The pairs out of one entry's nodes: its count times the next layer's size. */
  lemma BlockFanout(last: LayerEntry, id: int, all: Config)
    ensures Fanout(EntryNodes(last, |all|, id), GenerateNodes(all)) == Count(last) * LayerCount(all, last.layer + 1)
  {
    var block := EntryNodes(last, |all|, id);
    FanoutUniform(block, last.layer, GenerateNodes(all));
    LayerSizeOfNodes(all, |all|, last.layer + 1);
  }

  /** The pairs out of a walk split into the pairs out of the walk without
      its last entry and the pairs out of that entry's nodes. */
  lemma FanoutSplit(entries: seq<LayerEntry>, numLayers: int, t: seq<Node>)
    requires |entries| > 0
    ensures Fanout(NodesOf(entries, numLayers), t) ==
      Fanout(NodesOf(entries[..|entries| - 1], numLayers), t) +
      Fanout(EntryNodes(entries[|entries| - 1], numLayers, TotalCount(entries[..|entries| - 1])), t)
  {
    var before := NodesOf(entries[..|entries| - 1], numLayers);
    var block := EntryNodes(entries[|entries| - 1], numLayers, |before|);
    assert NodesOf(entries, numLayers) == before + block;
    FanoutAppend(before, block, t);
  }

  /** The pairs out of the nodes of `entries` into the nodes of `all`. */
  lemma {:induction false} FanoutOfNodes(entries: seq<LayerEntry>, all: Config)
    ensures Fanout(NodesOf(entries, |all|), GenerateNodes(all)) == PairCountOf(entries, all)
    decreases |entries|
  {
    if |entries| > 0 {
      var prefix := entries[..|entries| - 1];
      FanoutOfNodes(prefix, all);
      FanoutSplit(entries, |all|, GenerateNodes(all));
      BlockFanout(entries[|entries| - 1], TotalCount(prefix), all);
    }
  }

  /** The diagram's link count: for every entry, its node count times the
      number of nodes asked for on the next layer, summed over all entries. */
  lemma LinkCount(config: Config)
    ensures |GenerateLinks(GenerateNodes(config))| == PairCount(config)
  {
    FanoutOfNodes(config, config);
  }

  /** Every link of the diagram joins two existing nodes (ids are positions)
      whose layers differ by exactly one, so no node is linked to itself or to
      a node of its own layer. */
  lemma LinksJoinNextLayer(config: Config)
    ensures var nodes := GenerateNodes(config);
            var links := GenerateLinks(nodes);
            forall k :: 0 <= k < |links| ==>
              && 0 <= links[k].source < |nodes|
              && 0 <= links[k].target < |nodes|
              && nodes[links[k].source].layer + 1 == nodes[links[k].target].layer
  {
    var nodes := GenerateNodes(config);
    var links := GenerateLinks(nodes);
    forall k | 0 <= k < |links|
      ensures 0 <= links[k].source < |nodes|
      ensures 0 <= links[k].target < |nodes|
      ensures nodes[links[k].source].layer + 1 == nodes[links[k].target].layer
    {
      var i, j := LinkRanked(nodes, k);
    }
  }

  /** No link joins a node to itself. */
  lemma NoSelfLinks(config: Config)
    ensures forall link :: link in GenerateLinks(GenerateNodes(config)) ==> link.source != link.target
  {
    LinksJoinNextLayer(config);
  }

  /** The sum, over each of the first `m` entries that has a successor, of its
      count times its successor's count. */
  function ChainCount(config: Config, m: nat): nat
    requires m <= |config|
  {
    if m == 0 then 0
    else if m == |config| then ChainCount(config, m - 1)
    else ChainCount(config, m - 1) + Count(config[m - 1]) * Count(config[m])
  }

  /** With layers in order, layer `l` is asked for by entry `l` alone. */
  lemma {:induction false} LayerCountInOrder(config: Config, m: nat, l: int)
    requires LayersInOrder(config) && m <= |config|
    ensures LayerCount(config[..m], l) == if 0 <= l < m then Count(config[l]) else 0
    decreases m
  {
    if m > 0 {
      assert config[..m][..m - 1] == config[..m - 1];
      LayerCountInOrder(config, m - 1, l);
    }
  }

  /** With layers in order, the link count is the sum, over consecutive
      layers, of the product of their node counts. */
  lemma {:induction false} PairCountInOrder(config: Config, m: nat)
    requires LayersInOrder(config) && m <= |config|
    ensures PairCountOf(config[..m], config) == ChainCount(config, m)
    decreases m
  {
    if m > 0 {
      assert config[..m][..m - 1] == config[..m - 1];
      PairCountInOrder(config, m - 1);
      assert config[..|config|] == config;
      LayerCountInOrder(config, |config|, m);
    }
  }

  /** The starting diagram has 16 + 12 + 10 + 1 = 39 nodes. */
  lemma DefaultNodeCount()
    ensures |GenerateNodes(DefaultConfig)| == 39
  {
    var c := DefaultConfig;
    assert c[..3] == [c[0], c[1], c[2]];
    assert c[..3][..2] == c[..2] == [c[0], c[1]];
    assert c[..2][..1] == c[..1] == [c[0]];
    assert c[..1][..0] == [];
    assert TotalCount(c[..1]) == 16;
    assert TotalCount(c[..2]) == 28;
    assert TotalCount(c[..3]) == 38;
  }

  /** The starting diagram has 16 * 12 + 12 * 10 + 10 * 1 = 322 links. */
  lemma DefaultLinkCount()
    ensures |GenerateLinks(GenerateNodes(DefaultConfig))| == 322
  {
    var c := DefaultConfig;
    LinkCount(c);
    PairCountInOrder(c, |c|);
    assert c[..|c|] == c;
    assert ChainCount(c, 1) == 192;
    assert ChainCount(c, 2) == 312;
    assert ChainCount(c, 3) == 322;
  }
}
