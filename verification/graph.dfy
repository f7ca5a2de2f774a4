/**
  The facility graph: the `edges` table turned into a symmetric adjacency map
  (`buildGraph` in server/index.js), and the vocabulary of walks over it that the
  shortest-path search is specified against.
 */
module Graphs {
  import opened Common

  /** One row of the `edges(from_id, to_id, distance)` table. */
  datatype Edge = Edge(from: Node, to: Node, distance: nat)

  /** Adjacency map: every node id maps to its list of (neighbour, distance) entries. */
  type Graph = map<Node, seq<(Node, nat)>>

  /**
    One step of `buildGraph`'s loop: the edge is added in both directions, and an endpoint
    seen for the first time gets an empty list first. No other list changes.
   */
  function AddEdge(g: Graph, e: Edge): (g': Graph)
    ensures forall n {:trigger n in g'} :: n in g' <==> n in g || n == e.from || n == e.to
    ensures forall n {:trigger g'[n]} :: n in g' ==> g'[n] == (if n in g then g[n] else []) + EntriesOf(e, n)
  {
    var g1 := if e.from in g then g else g[e.from := []];
    var g2 := if e.to in g1 then g1 else g1[e.to := []];
    var g3 := g2[e.from := g2[e.from] + [(e.to, e.distance)]];
    g3[e.to := g3[e.to] + [(e.from, e.distance)]]
  }

  /** The node ids that occur at either end of some edge. */
  ghost function Endpoints(edges: seq<Edge>): set<Node>
  {
    (set e | e in edges :: e.from) + (set e | e in edges :: e.to)
  }

  /** `buildGraph`: the edges are added one by one in table order. */
  function BuildGraph(edges: seq<Edge>): (g: Graph)
    ensures g.Keys == Endpoints(edges)
    ensures |edges| == 0 ==> g == map[]
    decreases |edges|
  {
    if |edges| == 0 then map[]
    else
      var init, e := edges[..|edges| - 1], edges[|edges| - 1];
      assert edges == init + [e];
      assert Endpoints(edges) == Endpoints(init) + {e.from, e.to};
      AddEdge(BuildGraph(init), e)
  }

  /** The entries one edge contributes to the list of node `n`. */
  function EntriesOf(e: Edge, n: Node): seq<(Node, nat)>
  {
    (if e.from == n then [(e.to, e.distance)] else []) + (if e.to == n then [(e.from, e.distance)] else [])
  }

  /** Reference definition of a node's adjacency list: the entries of its incident edges, in table order. */
  function Incident(edges: seq<Edge>, n: Node): seq<(Node, nat)>
    decreases |edges|
  {
    if |edges| == 0 then [] else Incident(edges[..|edges| - 1], n) + EntriesOf(edges[|edges| - 1], n)
  }

  /** Every neighbour named in an adjacency list is itself a key of the graph. */
  ghost predicate Closed(g: Graph)
  {
    forall a, j :: a in g && 0 <= j < |g[a]| ==> g[a][j].0 in g
  }

  /** Adjacency is symmetric and weight-preserving: an entry (b, d) in a's list has a twin (a, d) in b's list. */
  ghost predicate Symmetric(g: Graph)
  {
    forall a, j :: a in g && 0 <= j < |g[a]| ==> g[a][j].0 in g && (a, g[a][j].1) in g[g[a][j].0]
  }

  /** Each adjacency list is exactly the node's incident entries, in edge-list order. */
  lemma {:induction false} BuildGraphLists(edges: seq<Edge>)
    ensures forall n :: n in BuildGraph(edges) ==> BuildGraph(edges)[n] == Incident(edges, n)
    decreases |edges|
  {
    if |edges| > 0 {
      var init := edges[..|edges| - 1];
      var e := edges[|edges| - 1];
      BuildGraphLists(init);
      forall n | n in BuildGraph(edges)
        ensures BuildGraph(edges)[n] == Incident(edges, n)
      {
        if n !in BuildGraph(init) {
          IncidentOfStranger(init, n);
        }
      }
    }
  }

  /** A node that touches no edge has no incident entries. */
  lemma {:induction false} IncidentOfStranger(edges: seq<Edge>, n: Node)
    requires n !in Endpoints(edges)
    ensures Incident(edges, n) == []
    decreases |edges|
  {
    if |edges| > 0 {
      var init := edges[..|edges| - 1];
      assert edges[|edges| - 1] in edges;
      assert forall e | e in init :: e in edges;
      IncidentOfStranger(init, n);
    }
  }

  /** For every edge (a, b, d): (b, d) is listed under a and (a, d) is listed under b. */
  lemma BuildGraphHasEdges(edges: seq<Edge>)
    ensures forall i :: 0 <= i < |edges| ==>
      var g := BuildGraph(edges);
      edges[i].from in g && edges[i].to in g &&
      (edges[i].to, edges[i].distance) in g[edges[i].from] &&
      (edges[i].from, edges[i].distance) in g[edges[i].to]
  {
    BuildGraphLists(edges);
    forall i | 0 <= i < |edges|
      ensures (edges[i].to, edges[i].distance) in Incident(edges, edges[i].from)
      ensures (edges[i].from, edges[i].distance) in Incident(edges, edges[i].to)
    {
      IncidentHasEdge(edges, i);
    }
  }

  lemma {:induction false} IncidentHasEdge(edges: seq<Edge>, i: nat)
    requires i < |edges|
    ensures (edges[i].to, edges[i].distance) in Incident(edges, edges[i].from)
    ensures (edges[i].from, edges[i].distance) in Incident(edges, edges[i].to)
    decreases |edges|
  {
    var init := edges[..|edges| - 1];
    if i < |edges| - 1 {
      IncidentHasEdge(init, i);
    } else {
      var e := edges[i];
      assert (e.to, e.distance) in EntriesOf(e, e.from);
      assert (e.from, e.distance) in EntriesOf(e, e.to);
    }
  }

  /** Every entry of an incident list comes from an edge joining the two nodes with that distance. */
  lemma {:induction false} IncidentFromEdge(edges: seq<Edge>, n: Node, j: nat)
    requires j < |Incident(edges, n)|
    ensures exists i :: 0 <= i < |edges| && EdgeJoins(edges[i], n, Incident(edges, n)[j])
    decreases |edges|
  {
    var init := edges[..|edges| - 1];
    var e := edges[|edges| - 1];
    if j < |Incident(init, n)| {
      IncidentFromEdge(init, n, j);
      var i :| 0 <= i < |init| && EdgeJoins(init[i], n, Incident(init, n)[j]);
      assert edges[i] == init[i];
    } else {
      var k := j - |Incident(init, n)|;
      assert Incident(edges, n)[j] == EntriesOf(e, n)[k];
      assert EdgeJoins(edges[|edges| - 1], n, Incident(edges, n)[j]);
    }
  }

  /** Edge `e` joins node `n` to the entry's neighbour with the entry's distance. */
  ghost predicate EdgeJoins(e: Edge, n: Node, entry: (Node, nat))
  {
    e.distance == entry.1 && ((e.from == n && e.to == entry.0) || (e.to == n && e.from == entry.0))
  }

  /** An incident entry (b, d) of `a` names an endpoint `b` whose own incident entries include (a, d). */
  lemma IncidentSymmetric(edges: seq<Edge>, a: Node, j: nat)
    requires j < |Incident(edges, a)|
    ensures Incident(edges, a)[j].0 in Endpoints(edges)
    ensures (a, Incident(edges, a)[j].1) in Incident(edges, Incident(edges, a)[j].0)
  {
    IncidentFromEdge(edges, a, j);
    var i :| 0 <= i < |edges| && EdgeJoins(edges[i], a, Incident(edges, a)[j]);
    IncidentHasEdge(edges, i);
    assert edges[i] in edges;
  }

  /** The built graph is symmetric, and so closed: every neighbour is a key. */
  lemma BuildGraphSymmetric(edges: seq<Edge>)
    ensures Symmetric(BuildGraph(edges))
    ensures Closed(BuildGraph(edges))
  {
    var g: Graph := BuildGraph(edges);
    BuildGraphLists(edges);
    forall a: Node, j: int | a in g && 0 <= j < |g[a]|
      ensures g[a][j].0 in g && (a, g[a][j].1) in g[g[a][j].0]
    {
      IncidentSymmetric(edges, a, j);
    }
  }

  // ----- Counting adjacency entries -----

  /** Number of adjacency entries over all lists of the graph. */
  ghost function EntryCount(g: Graph): nat
    decreases |g.Keys|
  {
    if g.Keys == {} then 0
    else
      var n :| n in g;
      assert |(g - {n}).Keys| < |g.Keys| by {
        assert (g - {n}).Keys == g.Keys - {n};
      }
      |g[n]| + EntryCount(g - {n})
  }

  /** The count does not depend on which key is peeled off first. */
  lemma {:induction false} EntryCountRemove(g: Graph, n: Node)
    requires n in g
    ensures EntryCount(g) == |g[n]| + EntryCount(g - {n})
    decreases |g.Keys|
  {
    var m :| m in g && EntryCount(g) == |g[m]| + EntryCount(g - {m});
    if m != n {
      assert (g - {m}).Keys == g.Keys - {m};
      assert (g - {n}).Keys == g.Keys - {n};
      EntryCountRemove(g - {m}, n);
      EntryCountRemove(g - {n}, m);
      assert g - {m} - {n} == g - {n} - {m};
    }
  }

  /** Replacing one list changes the count by the difference in list lengths. */
  lemma EntryCountUpdate(g: Graph, n: Node, v: seq<(Node, nat)>)
    ensures EntryCount(g[n := v]) == EntryCount(g) - (if n in g then |g[n]| else 0) + |v|
  {
    EntryCountRemove(g[n := v], n);
    assert g[n := v] - {n} == g - {n};
    if n in g {
      EntryCountRemove(g, n);
    } else {
      assert g - {n} == g;
    }
  }

  /** Adding one edge adds exactly two entries, one per direction. */
  lemma AddEdgeCount(g: Graph, e: Edge)
    ensures EntryCount(AddEdge(g, e)) == EntryCount(g) + 2
  {
    var g1 := if e.from in g then g else g[e.from := []];
    EntryCountUpdate(g, e.from, []);
    var g2 := if e.to in g1 then g1 else g1[e.to := []];
    EntryCountUpdate(g1, e.to, []);
    var g3 := g2[e.from := g2[e.from] + [(e.to, e.distance)]];
    EntryCountUpdate(g2, e.from, g2[e.from] + [(e.to, e.distance)]);
    EntryCountUpdate(g3, e.to, g3[e.to] + [(e.from, e.distance)]);
    assert AddEdge(g, e) == g3[e.to := g3[e.to] + [(e.from, e.distance)]];
  }

  /** Each edge contributes exactly two entries, so the lists hold twice as many entries as there are edges. */
  lemma {:induction false} BuildGraphEntryCount(edges: seq<Edge>)
    ensures EntryCount(BuildGraph(edges)) == 2 * |edges|
    decreases |edges|
  {
    if |edges| > 0 {
      BuildGraphEntryCount(edges[..|edges| - 1]);
      AddEdgeCount(BuildGraph(edges[..|edges| - 1]), edges[|edges| - 1]);
    }
  }

  // ----- Walks -----

  /** `b` is listed as a neighbour of `a`. */
  ghost predicate Adjacent(g: Graph, a: Node, b: Node)
  {
    a in g && exists j :: 0 <= j < |g[a]| && g[a][j].0 == b
  }

  /** Every consecutive pair of `nodes` is an adjacency of `g`. */
  ghost predicate Linked(g: Graph, nodes: seq<Node>)
  {
    forall i :: 0 <= i < |nodes| - 1 ==> Adjacent(g, nodes[i], nodes[i + 1])
  }

  /** `nodes` is a walk whose i-th hop uses an adjacency entry of weight `ws[i]`. */
  ghost predicate IsWalk(g: Graph, nodes: seq<Node>, ws: seq<nat>)
  {
    && |nodes| == |ws| + 1
    && forall i :: 0 <= i < |ws| ==> nodes[i] in g && (nodes[i + 1], ws[i]) in g[nodes[i]]
  }

  /** Some walk leads from `s` to `t` (the one-node walk when s == t). */
  ghost predicate Reachable(g: Graph, s: Node, t: Node)
  {
    exists nodes :: |nodes| >= 1 && nodes[0] == s && nodes[|nodes| - 1] == t && Linked(g, nodes)
  }

  /** No walk from `s` to `t` weighs less than `w`. */
  ghost predicate NoShorterWalk(g: Graph, s: Node, t: Node, w: nat)
  {
    forall nodes, ws :: IsWalk(g, nodes, ws) && nodes[0] == s && nodes[|nodes| - 1] == t ==> w <= Sum(ws)
  }

  /** A weighted walk visits linked nodes. */
  lemma WalkIsLinked(g: Graph, nodes: seq<Node>, ws: seq<nat>)
    requires IsWalk(g, nodes, ws)
    ensures Linked(g, nodes)
  {
    forall i | 0 <= i < |nodes| - 1
      ensures Adjacent(g, nodes[i], nodes[i + 1])
    {
      var j :| 0 <= j < |g[nodes[i]]| && g[nodes[i]][j] == (nodes[i + 1], ws[i]);
    }
  }

  /** Linked nodes can be weighted by picking one adjacency entry per hop. */
  lemma {:induction false} LinkedIsWalk(g: Graph, nodes: seq<Node>)
    requires |nodes| >= 1 && Linked(g, nodes)
    ensures exists ws :: IsWalk(g, nodes, ws)
    decreases |nodes|
  {
    if |nodes| > 1 {
      var rest := nodes[1..];
      assert Linked(g, rest) by {
        forall i | 0 <= i < |rest| - 1
          ensures Adjacent(g, rest[i], rest[i + 1])
        {
          assert Adjacent(g, nodes[i + 1], nodes[i + 2]);
        }
      }
      LinkedIsWalk(g, rest);
      var ws :| IsWalk(g, rest, ws);
      assert Adjacent(g, nodes[0], nodes[1]);
      var j :| 0 <= j < |g[nodes[0]]| && g[nodes[0]][j].0 == nodes[1];
      var ws' := [g[nodes[0]][j].1] + ws;
      assert g[nodes[0]][j] == (nodes[1], ws'[0]);
      assert IsWalk(g, nodes, ws') by {
        forall i | 0 <= i < |ws'|
          ensures nodes[i] in g && (nodes[i + 1], ws'[i]) in g[nodes[i]]
        {
          if i > 0 {
            assert rest[i - 1] == nodes[i] && rest[i] == nodes[i + 1] && ws[i - 1] == ws'[i];
          }
        }
      }
    } else {
      assert IsWalk(g, nodes, []);
    }
  }

  /** In a closed graph only a key starts a walk of more than one node, and every node it reaches is a key. */
  lemma WalkStaysInGraph(g: Graph, nodes: seq<Node>, ws: seq<nat>)
    requires Closed(g) && IsWalk(g, nodes, ws) && |ws| > 0
    ensures nodes[|nodes| - 1] in g
  {
    var k := |ws| - 1;
    assert nodes[k] in g && (nodes[k + 1], ws[k]) in g[nodes[k]];
    var j :| 0 <= j < |g[nodes[k]]| && g[nodes[k]][j] == (nodes[k + 1], ws[k]);
    assert g[nodes[k]][j].0 in g;
  }

  /** A hop along an adjacency entry of `u` into the first node of a walk gives a longer walk. */
  lemma WalkPrepend(g: Graph, nodes: seq<Node>, ws: seq<nat>, u: Node, i: nat)
    requires IsWalk(g, nodes, ws)
    requires u in g && i < |g[u]| && g[u][i].0 == nodes[0]
    ensures IsWalk(g, [u] + nodes, [g[u][i].1] + ws)
  {
    var nodes', ws' := [u] + nodes, [g[u][i].1] + ws;
    assert g[u][i] == (nodes'[1], ws'[0]);
    forall k | 0 <= k < |ws'|
      ensures nodes'[k] in g && (nodes'[k + 1], ws'[k]) in g[nodes'[k]]
    {
      if k > 0 {
        assert nodes'[k] == nodes[k - 1] && nodes'[k + 1] == nodes[k] && ws'[k] == ws[k - 1];
      }
    }
  }
}
