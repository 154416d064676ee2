/**
 Link generation: an all-pairs scan over the nodes that links node i to node j
 whenever j's layer is exactly one more than i's, row by row in i and, within
 a row, in j.
 */
module Links {
  import opened FcnnTypes

  /** Node `j` sits on the layer right after node `i`'s. */
  predicate Adjacent(nodes: seq<Node>, i: int, j: int)
    requires 0 <= i < |nodes| && 0 <= j < |nodes|
  {
    nodes[i].layer + 1 == nodes[j].layer
  }

  /** The inner loop over j < m for a fixed i: links from node i, in j order. */
  function RowLinks(nodes: seq<Node>, i: nat, m: nat): (r: seq<Link>)
    requires i < |nodes| && m <= |nodes|
    ensures |r| == LayerSize(nodes[..m], nodes[i].layer + 1)
    decreases m
  {
    if m == 0 then []
    else
      assert nodes[..m][..m - 1] == nodes[..m - 1];
      RowLinks(nodes, i, m - 1) +
        (if nodes[i].layer + 1 == nodes[m - 1].layer then [Link(nodes[i].id, nodes[m - 1].id)] else [])
  }

  /** The outer loop over i < m: every row of links so far, in i order. */
  function LinksUpTo(nodes: seq<Node>, m: nat): (r: seq<Link>)
    requires m <= |nodes|
    ensures |r| == Fanout(nodes[..m], nodes)
    decreases m
  {
    if m == 0 then []
    else
      assert nodes[..m][..m - 1] == nodes[..m - 1];
      assert nodes[..|nodes|] == nodes;
      LinksUpTo(nodes, m - 1) + RowLinks(nodes, m - 1, |nodes|)
  }

  /** generateLinks: every link of the fully connected network. There are
      exactly as many links as ordered pairs that pass the adjacency test. */
  function GenerateLinks(nodes: seq<Node>): (r: seq<Link>)
    ensures |r| == Fanout(nodes, nodes)
  {
    assert nodes[..|nodes|] == nodes;
    LinksUpTo(nodes, |nodes|)
  }

  /** How many nodes of `s` sit on layer `l`. */
  function LayerSize(s: seq<Node>, l: int): nat
  {
    if |s| == 0 then 0
    else LayerSize(s[..|s| - 1], l) + (if s[|s| - 1].layer == l then 1 else 0)
  }

  /** How many nodes of `target` sit on the layer after a node of `src`,
      summed over all nodes of `src`: the ordered pairs that pass the adjacency test. */
  function Fanout(src: seq<Node>, target: seq<Node>): nat
  {
    if |src| == 0 then 0
    else Fanout(src[..|src| - 1], target) + LayerSize(target, src[|src| - 1].layer + 1)
  }

  /** The position the link of the pair (i, j) takes: all links of earlier
      rows, then the links of row i to nodes before j. */
  function Rank(nodes: seq<Node>, i: int, j: int): nat
    requires 0 <= i < |nodes| && 0 <= j < |nodes|
  {
    Fanout(nodes[..i], nodes) + LayerSize(nodes[..j], nodes[i].layer + 1)
  }

  /** Counting one more node of a prefix. */
  lemma LayerSizeStep(s: seq<Node>, a: int, l: int)
    requires 0 <= a < |s|
    ensures LayerSize(s[..a + 1], l) == LayerSize(s[..a], l) + (if s[a].layer == l then 1 else 0)
  {
    assert s[..a + 1][..a] == s[..a];
  }

  /** Longer prefixes hold at least as many nodes of a layer. */
  lemma {:induction false} LayerSizeMonotone(s: seq<Node>, a: int, b: int, l: int)
    requires 0 <= a <= b <= |s|
    ensures LayerSize(s[..a], l) <= LayerSize(s[..b], l)
    decreases b - a
  {
    if a < b {
      LayerSizeStep(s, b - 1, l);
      LayerSizeMonotone(s, a, b - 1, l);
    }
  }

  /** Summing one more row of a prefix. */
  lemma FanoutStep(s: seq<Node>, a: int, t: seq<Node>)
    requires 0 <= a < |s|
    ensures Fanout(s[..a + 1], t) == Fanout(s[..a], t) + LayerSize(t, s[a].layer + 1)
  {
    assert s[..a + 1][..a] == s[..a];
  }

  /** Longer prefixes have at least as many pairs. */
  lemma {:induction false} FanoutMonotone(s: seq<Node>, a: int, b: int, t: seq<Node>)
    requires 0 <= a <= b <= |s|
    ensures Fanout(s[..a], t) <= Fanout(s[..b], t)
    decreases b - a
  {
    if a < b {
      FanoutStep(s, b - 1, t);
      FanoutMonotone(s, a, b - 1, t);
    }
  }

  /** Within row i, the link to an adjacent node j sits at the count of
      earlier nodes on j's layer. */
  lemma {:induction false} RowLinkAt(nodes: seq<Node>, i: nat, j: nat, m: nat)
    requires i < |nodes| && j < m <= |nodes| && Adjacent(nodes, i, j)
    ensures LayerSize(nodes[..j], nodes[i].layer + 1) < |RowLinks(nodes, i, m)|
    ensures RowLinks(nodes, i, m)[LayerSize(nodes[..j], nodes[i].layer + 1)] == Link(nodes[i].id, nodes[j].id)
    decreases m
  {
    var l := nodes[i].layer + 1;
    if j == m - 1 {
      assert RowLinks(nodes, i, m) == RowLinks(nodes, i, m - 1) + [Link(nodes[i].id, nodes[j].id)];
    } else {
      RowLinkAt(nodes, i, j, m - 1);
    }
  }

  /** The link of an adjacent pair (i, j) with i < m sits at Rank(i, j) among the rows so far. */
  lemma {:induction false} LinkUpToAt(nodes: seq<Node>, i: nat, j: nat, m: nat)
    requires i < m <= |nodes| && j < |nodes| && Adjacent(nodes, i, j)
    ensures Rank(nodes, i, j) < |LinksUpTo(nodes, m)|
    ensures LinksUpTo(nodes, m)[Rank(nodes, i, j)] == Link(nodes[i].id, nodes[j].id)
    decreases m
  {
    var before := LinksUpTo(nodes, m - 1);
    var row := RowLinks(nodes, m - 1, |nodes|);
    assert LinksUpTo(nodes, m) == before + row;
    if i == m - 1 {
      RowLinkAt(nodes, i, j, |nodes|);
      assert Rank(nodes, i, j) == |before| + LayerSize(nodes[..j], nodes[i].layer + 1);
    } else {
      LinkUpToAt(nodes, i, j, m - 1);
      assert Rank(nodes, i, j) < |before|;
    }
  }

  /** Every adjacent pair (i, j) has its link at position Rank(i, j). */
  lemma LinkAtRank(nodes: seq<Node>, i: int, j: int)
    requires 0 <= i < |nodes| && 0 <= j < |nodes| && Adjacent(nodes, i, j)
    ensures Rank(nodes, i, j) < |GenerateLinks(nodes)|
    ensures GenerateLinks(nodes)[Rank(nodes, i, j)] == Link(nodes[i].id, nodes[j].id)
  {
    LinkUpToAt(nodes, i, j, |nodes|);
  }

  /** Links come out ordered by i, then by j: an adjacent pair that is
      lexicographically smaller gets a strictly earlier position. */
  lemma RankOrdered(nodes: seq<Node>, i: int, j: int, i': int, j': int)
    requires 0 <= i < |nodes| && 0 <= j < |nodes| && Adjacent(nodes, i, j)
    requires 0 <= i' < |nodes| && 0 <= j' < |nodes| && Adjacent(nodes, i', j')
    requires i < i' || (i == i' && j < j')
    ensures Rank(nodes, i, j) < Rank(nodes, i', j')
  {
    var l := nodes[i].layer + 1;
    LayerSizeStep(nodes, j, l);
    LayerSizeMonotone(nodes, j + 1, |nodes|, l);
    assert nodes[..|nodes|] == nodes;
    if i < i' {
      FanoutStep(nodes, i, nodes);
      FanoutMonotone(nodes, i + 1, i', nodes);
    } else {
      LayerSizeMonotone(nodes, j + 1, j', l);
    }
  }

  /** Every link of the rows so far joins an adjacent pair. */
  lemma {:induction false} LinkUpToSource(nodes: seq<Node>, m: nat, k: int) returns (i: int, j: int)
    requires m <= |nodes| && 0 <= k < |LinksUpTo(nodes, m)|
    ensures 0 <= i < m && 0 <= j < |nodes| && Adjacent(nodes, i, j)
    ensures Rank(nodes, i, j) == k
    ensures LinksUpTo(nodes, m)[k] == Link(nodes[i].id, nodes[j].id)
    decreases m
  {
    var before := LinksUpTo(nodes, m - 1);
    if k < |before| {
      i, j := LinkUpToSource(nodes, m - 1, k);
    } else {
      i := m - 1;
      j := RowLinkSource(nodes, i, |nodes|, k - |before|);
    }
  }

  /** Every link of row i joins node i to an adjacent node. */
  lemma {:induction false} RowLinkSource(nodes: seq<Node>, i: nat, m: nat, k: int) returns (j: int)
    requires i < |nodes| && m <= |nodes| && 0 <= k < |RowLinks(nodes, i, m)|
    ensures 0 <= j < m && Adjacent(nodes, i, j)
    ensures LayerSize(nodes[..j], nodes[i].layer + 1) == k
    ensures RowLinks(nodes, i, m)[k] == Link(nodes[i].id, nodes[j].id)
    decreases m
  {
    var before := RowLinks(nodes, i, m - 1);
    if k < |before| {
      j := RowLinkSource(nodes, i, m - 1, k);
    } else {
      j := m - 1;
    }
  }

  /** A link is generated exactly when it joins the ids of some adjacent pair. */
  lemma LinksMembership(nodes: seq<Node>, link: Link)
    ensures link in GenerateLinks(nodes) <==>
      exists i, j :: 0 <= i < |nodes| && 0 <= j < |nodes| && Adjacent(nodes, i, j) &&
                     link == Link(nodes[i].id, nodes[j].id)
  {
    var links := GenerateLinks(nodes);
    if link in links {
      var k :| 0 <= k < |links| && links[k] == link;
      var i, j := LinkUpToSource(nodes, |nodes|, k);
    }
    if exists i, j :: 0 <= i < |nodes| && 0 <= j < |nodes| && Adjacent(nodes, i, j) &&
                      link == Link(nodes[i].id, nodes[j].id) {
      var i, j :| 0 <= i < |nodes| && 0 <= j < |nodes| && Adjacent(nodes, i, j) &&
                  link == Link(nodes[i].id, nodes[j].id);
      LinkAtRank(nodes, i, j);
    }
  }

  /** Every link's position is taken by the pair it joins, so each position
      holds the link of an adjacent pair with that rank. */
  lemma LinkRanked(nodes: seq<Node>, k: int) returns (i: int, j: int)
    requires 0 <= k < |GenerateLinks(nodes)|
    ensures 0 <= i < |nodes| && 0 <= j < |nodes| && Adjacent(nodes, i, j)
    ensures Rank(nodes, i, j) == k
    ensures GenerateLinks(nodes)[k] == Link(nodes[i].id, nodes[j].id)
  {
    i, j := LinkUpToSource(nodes, |nodes|, k);
  }
}
