/**
  `dijkstra` from server/index.js: linear-scan Dijkstra over the adjacency map,
  followed by reconstruction of the path from the predecessor links.
 */
module Dijkstra {
  import opened Common
  import opened Graphs

  /** A tentative distance: a finite number or JavaScript's `Infinity`. */
  datatype Dist = Fin(d: nat) | Infinity

  /** A tentative distance extended by one edge weight; `Infinity` absorbs any finite weight. */
  function Add(a: Dist, w: nat): Dist
  {
    match a
    case Fin(d) => Fin(d + w)
    case Infinity => Infinity
  }

  /** JavaScript's `<` on numbers that may be `Infinity` (`Infinity < Infinity` is false). */
  predicate Less(a: Dist, b: Dist)
  {
    match a
    case Infinity => false
    case Fin(x) => b.Infinity? || x < b.d
  }

  /** The non-strict order induced by `Less`. */
  predicate AtMost(a: Dist, b: Dist)
  {
    !Less(b, a)
  }

  /**
    The selection of the next node: a left-to-right scan of the queue that keeps the
    current candidate only when it is strictly closer than the next one, so among equal
    minima the LAST one in queue order wins.
   */
  function Pick(q: seq<Node>, dist: map<Node, Dist>): (k: nat)
    requires |q| > 0
    requires forall x :: x in q ==> x in dist
    ensures k < |q|
    ensures forall x :: x in q ==> AtMost(dist[q[k]], dist[x])
    ensures forall j :: k < j < |q| ==> Less(dist[q[k]], dist[q[j]])
    decreases |q|
  {
    if |q| == 1 then 0
    else
      var a := Pick(q[..|q| - 1], dist);
      assert forall x :: x in q ==> x in q[..|q| - 1] || x == q[|q| - 1];
      if Less(dist[q[a]], dist[q[|q| - 1]]) then a else |q| - 1
  }

  /** The least element of a non-empty set of node ids. */
  method Least(s: set<Node>) returns (m: Node)
    requires s != {}
    ensures m in s && forall x :: x in s ==> m <= x
  {
    m :| m in s;
    var rest := s - {m};
    while rest != {}
      invariant rest <= s && m in s
      invariant forall x :: x in s && x !in rest ==> m <= x
      decreases |rest|
    {
      var y :| y in rest;
      if y < m {
        m := y;
      }
      rest := rest - {y};
    }
  }

  /**
    The initial queue: the graph's keys, which for array-index ids enumerate in ascending
    numeric order, so the queue starts as the graph's node ids in increasing order.
   */
  method AscendingKeys(keys: set<Node>) returns (q: seq<Node>)
    ensures forall i, j :: 0 <= i < j < |q| ==> q[i] < q[j]
    ensures forall x :: x in q <==> x in keys
  {
    q := [];
    var rest := keys;
    while rest != {}
      invariant rest <= keys
      invariant forall x :: x in q ==> x in keys && x !in rest
      invariant forall x :: x in keys && x !in rest ==> x in q
      invariant forall i, j :: 0 <= i < j < |q| ==> q[i] < q[j]
      invariant forall i, x :: 0 <= i < |q| && x in rest ==> q[i] < x
      decreases |rest|
    {
      var m := Least(rest);
      ghost var q0, rest0 := q, rest;
      q := q + [m];
      rest := rest - {m};
      assert forall i :: 0 <= i < |q0| ==> q[i] == q0[i];
      assert forall x :: x in q <==> x in q0 || x == m;
    }
  }

  /** Deleting position `k` of a duplicate-free queue removes exactly that node. */
  lemma RemoveAt(q: seq<Node>, k: nat)
    requires k < |q|
    requires forall i, j :: 0 <= i < j < |q| ==> q[i] != q[j]
    ensures forall x :: x in q[..k] + q[k + 1..] <==> x in q && x != q[k]
    ensures var r := q[..k] + q[k + 1..]; forall i, j :: 0 <= i < j < |r| ==> r[i] != r[j]
  {
    var r := q[..k] + q[k + 1..];
    assert forall i :: 0 <= i < |r| ==> r[i] == if i < k then q[i] else q[i + 1];
    forall x | x in q && x != q[k]
      ensures x in r
    {
      var i :| 0 <= i < |q| && q[i] == x;
      assert r[if i < k then i else i - 1] == x;
    }
  }

  // ----- Search invariants -----

  /** The queue holds, without repetition, exactly the graph keys not yet dequeued. */
  ghost predicate QueueShape(g: Graph, q: seq<Node>, done: set<Node>)
  {
    && (forall i, j :: 0 <= i < j < |q| ==> q[i] != q[j])
    && (forall x :: x in q ==> x in g && x !in done)
    && done <= g.Keys
    && (forall x :: x in g && x !in done ==> x in q)
  }

  /** Every dequeued node is at least as close as every queued one. */
  ghost predicate Settled(dist: map<Node, Dist>, done: set<Node>, q: seq<Node>)
  {
    forall a, x :: a in done && x in q && a in dist && x in dist ==> AtMost(dist[a], dist[x])
  }

  /** Every entry of every relaxed node's list satisfies the triangle inequality. */
  ghost predicate RelaxedFrom(g: Graph, dist: map<Node, Dist>, relaxed: set<Node>)
  {
    forall a, j :: a in relaxed && a in g && a in dist && 0 <= j < |g[a]| && g[a][j].0 in dist ==>
      AtMost(dist[g[a][j].0], Add(dist[a], g[a][j].1))
  }

  /** `prev[v] == u` and the distance of v is that of u plus the weight of one u -> v entry. */
  ghost predicate Tight(g: Graph, dist: map<Node, Dist>, u: Node, v: Node)
  {
    && u in g && u in dist && v in dist && dist[u].Fin? && dist[v].Fin?
    && exists j :: 0 <= j < |g[u]| && g[u][j].0 == v && dist[v].d == dist[u].d + g[u][j].1
  }

  /** Predecessors are relaxed nodes, and each predecessor link is tight. */
  ghost predicate PrevTight(g: Graph, dist: map<Node, Dist>, prev: map<Node, Option<Node>>, relaxed: set<Node>)
  {
    forall v :: v in prev && prev[v].Some? ==> prev[v].value in relaxed && Tight(g, dist, prev[v].value, v)
  }

  /** Only the start has distance 0 without a predecessor; every other finite key has one. */
  ghost predicate Rooted(g: Graph, start: Node, dist: map<Node, Dist>, prev: map<Node, Option<Node>>)
  {
    && start in dist && dist[start] == Fin(0)
    && (start in prev ==> prev[start] == None)
    && forall v :: v in g && v in dist && v in prev && v != start && dist[v].Fin? ==> prev[v].Some?
  }

  /** Dequeue times: a dequeued node's predecessor was dequeued strictly earlier. */
  ghost predicate Ordered(prev: map<Node, Option<Node>>, done: set<Node>, order: map<Node, nat>, count: nat)
  {
    && order.Keys == done
    && (forall x :: x in order ==> order[x] < count)
    && forall v :: v in prev && v in done && prev[v].Some? && prev[v].value in order ==> order[prev[v].value] < order[v]
  }

  /** Termination measure for following predecessor links. */
  ghost function Rank(order: map<Node, nat>, count: nat, v: Node): nat
  {
    if v in order then order[v] else count
  }

  /**
    The lower bound: once `t` is dequeued, no walk from the start reaches `t` with less
    weight than `dist[t]`. Followed hop by hop from the start: while the walk stays among
    relaxed nodes the triangle inequality carries the bound along; the first node still
    queued is already at least as far as `t`.
   */
  lemma {:induction false} WalkBound(g: Graph, start: Node, dist: map<Node, Dist>, q: seq<Node>,
                                     done: set<Node>, relaxed: set<Node>, t: Node,
                                     nodes: seq<Node>, ws: seq<nat>, k: nat)
    requires Closed(g) && dist.Keys == g.Keys + {start}
    requires QueueShape(g, q, done) && relaxed <= done
    requires forall a :: a in done && a !in relaxed ==> a == t
    requires t in done && Settled(dist, done, q) && RelaxedFrom(g, dist, relaxed)
    requires IsWalk(g, nodes, ws) && nodes[|nodes| - 1] == t
    requires k <= |ws| && nodes[k] in dist && AtMost(dist[nodes[k]], Fin(Sum(ws[..k])))
    ensures AtMost(dist[t], Fin(Sum(ws)))
    decreases |ws| - k
  {
    var x := nodes[k];
    SumPrefix(ws, k);
    if x == t {
    } else if x in relaxed {
      assert x in g && (nodes[k + 1], ws[k]) in g[x];
      var j :| 0 <= j < |g[x]| && g[x][j] == (nodes[k + 1], ws[k]);
      assert g[x][j].0 in g;
      SumExtend(ws, k);
      WalkBound(g, start, dist, q, done, relaxed, t, nodes, ws, k + 1);
    } else {
      assert x in g;
      assert x in q;
    }
  }

  /** The invariants of the search loop that hold between iterations and across one relaxation pass. */
  ghost predicate Searching(g: Graph, start: Node, q: seq<Node>, dist: map<Node, Dist>, prev: map<Node, Option<Node>>,
                            done: set<Node>, relaxed: set<Node>, order: map<Node, nat>, count: nat)
  {
    && dist.Keys == g.Keys + {start} && prev.Keys == g.Keys
    && QueueShape(g, q, done)
    && relaxed <= done
    && Settled(dist, done, q)
    && PrevTight(g, dist, prev, relaxed)
    && Rooted(g, start, dist, prev)
    && Ordered(prev, done, order, count)
  }

  /** Moving the node at position `k` of the queue to the dequeued set keeps the queue shape. */
  lemma DequeueShape(g: Graph, q: seq<Node>, done: set<Node>, k: nat)
    requires QueueShape(g, q, done) && k < |q|
    ensures QueueShape(g, q[..k] + q[k + 1..], done + {q[k]})
  {
    RemoveAt(q, k);
  }

  /** Dequeuing a nearest queued node keeps every dequeued node at least as close as every queued one. */
  lemma DequeueSettled(g: Graph, dist: map<Node, Dist>, q: seq<Node>, done: set<Node>, k: nat)
    requires QueueShape(g, q, done) && Settled(dist, done, q)
    requires forall x :: x in q ==> x in dist
    requires k < |q| && forall x :: x in q ==> AtMost(dist[q[k]], dist[x])
    ensures Settled(dist, done + {q[k]}, q[..k] + q[k + 1..])
    ensures forall a :: a in done + {q[k]} && a in dist ==> AtMost(dist[a], dist[q[k]])
  {
    RemoveAt(q, k);
  }

  /** With every predecessor already dequeued, the next dequeued node gets the next dequeue time. */
  lemma DequeueOrdered(prev: map<Node, Option<Node>>, done: set<Node>, order: map<Node, nat>, count: nat, u: Node)
    requires Ordered(prev, done, order, count) && u !in done
    requires forall v :: v in prev && prev[v].Some? ==> prev[v].value in done
    ensures Ordered(prev, done + {u}, order[u := count], count + 1)
  {
  }

  /** Dequeuing the node `Pick` selects keeps the invariants, and that node is no closer than any dequeued one. */
  lemma Dequeue(g: Graph, start: Node, q: seq<Node>, dist: map<Node, Dist>, prev: map<Node, Option<Node>>,
                done: set<Node>, relaxed: set<Node>, order: map<Node, nat>, count: nat, k: nat)
    requires Searching(g, start, q, dist, prev, done, relaxed, order, count)
    requires k < |q| && forall x :: x in q ==> AtMost(dist[q[k]], dist[x])
    ensures var u := q[k];
      && Searching(g, start, q[..k] + q[k + 1..], dist, prev, done + {u}, relaxed, order[u := count], count + 1)
      && forall a :: a in done + {u} ==> AtMost(dist[a], dist[u])
  {
    var u := q[k];
    DequeueShape(g, q, done, k);
    DequeueSettled(g, dist, q, done, k);
    DequeueOrdered(prev, done, order, count, u);
  }

  /** `Infinity` never becomes finite by adding a weight, and adding never makes a distance smaller. */
  lemma AddGrows(a: Dist, w: nat)
    ensures AtMost(a, Add(a, w))
    ensures Add(a, w).Fin? ==> a.Fin?
  {
  }

  /** Lowering a queued node's distance to no less than the dequeued ones keeps them settled. */
  lemma SettledAfterRelax(dist: map<Node, Dist>, done: set<Node>, q: seq<Node>, v: Node, alt: Dist)
    requires Settled(dist, done, q) && v in dist && v !in done
    requires forall a :: a in done && a in dist ==> AtMost(dist[a], alt)
    ensures Settled(dist[v := alt], done, q)
  {
  }

  /** Lowering a node's distance keeps every triangle inequality of the relaxed nodes, none of which is `v`. */
  lemma RelaxedFromAfterRelax(g: Graph, dist: map<Node, Dist>, relaxed: set<Node>, v: Node, alt: Dist)
    requires RelaxedFrom(g, dist, relaxed) && v in dist && v !in relaxed && AtMost(alt, dist[v])
    ensures RelaxedFrom(g, dist[v := alt], relaxed)
  {
    var dist' := dist[v := alt];
    forall a, j | a in relaxed && a in g && a in dist' && 0 <= j < |g[a]| && g[a][j].0 in dist'
      ensures AtMost(dist'[g[a][j].0], Add(dist'[a], g[a][j].1))
    {
      assert dist'[a] == dist[a];
    }
  }

  /** Redirecting `prev[v]` to `u` along entry `j` of `u`'s list keeps every predecessor link tight. */
  lemma PrevTightAfterRelax(g: Graph, dist: map<Node, Dist>, prev: map<Node, Option<Node>>, relaxed: set<Node>,
                            u: Node, j: nat)
    requires PrevTight(g, dist, prev, relaxed)
    requires u in relaxed && u in g && u in dist && j < |g[u]|
    requires g[u][j].0 !in relaxed && g[u][j].0 in dist
    requires Add(dist[u], g[u][j].1).Fin?
    ensures var v := g[u][j].0;
      PrevTight(g, dist[v := Add(dist[u], g[u][j].1)], prev[v := Some(u)], relaxed)
  {
    var v := g[u][j].0;
    var dist', prev' := dist[v := Add(dist[u], g[u][j].1)], prev[v := Some(u)];
    forall x | x in prev' && prev'[x].Some?
      ensures prev'[x].value in relaxed && Tight(g, dist', prev'[x].value, x)
    {
      if x == v {
        assert g[u][j].0 == x && dist'[x].d == dist'[u].d + g[u][j].1;
      } else {
        var p := prev[x].value;
        assert Tight(g, dist, p, x);
        var i :| 0 <= i < |g[p]| && g[p][i].0 == x && dist[x].d == dist[p].d + g[p][i].1;
        assert dist'[p] == dist[p] && dist'[x] == dist[x];
      }
    }
  }

  /** Relaxing a node other than the start, to a finite distance, keeps the start as the only root. */
  lemma RootedAfterRelax(g: Graph, start: Node, dist: map<Node, Dist>, prev: map<Node, Option<Node>>,
                         v: Node, alt: Dist, u: Node)
    requires Rooted(g, start, dist, prev) && v != start && alt.Fin?
    ensures Rooted(g, start, dist[v := alt], prev[v := Some(u)])
  {
  }

  /** Redirecting the predecessor of a node still queued leaves the dequeue order intact. */
  lemma OrderedAfterRelax(prev: map<Node, Option<Node>>, done: set<Node>, order: map<Node, nat>, count: nat,
                          v: Node, u: Node)
    requires Ordered(prev, done, order, count) && v !in done
    ensures Ordered(prev[v := Some(u)], done, order, count)
  {
  }

  /** The node a relaxation lowers is a graph key other than the start, not yet dequeued, and lowered to no less than any dequeued node. */
  lemma RelaxTarget(g: Graph, start: Node, dist: map<Node, Dist>, done: set<Node>, u: Node, j: nat)
    requires dist.Keys == g.Keys + {start} && dist[start] == Fin(0) && done <= g.Keys
    requires u in g && j < |g[u]| && g[u][j].0 in dist
    requires forall a :: a in done ==> AtMost(dist[a], dist[u])
    requires Less(Add(dist[u], g[u][j].1), dist[g[u][j].0])
    ensures var v, alt := g[u][j].0, Add(dist[u], g[u][j].1);
      && v !in done && v != start && v in g
      && forall a :: a in done ==> AtMost(dist[a], alt)
  {
    var v, alt := g[u][j].0, Add(dist[u], g[u][j].1);
    AddGrows(dist[u], g[u][j].1);
    forall a | a in done
      ensures AtMost(dist[a], alt)
    {
      AtMostTransitive(dist[a], dist[u], alt);
    }
  }

  /** A successful relaxation keeps the dequeued nodes settled, the start the only root, and the dequeue order. */
  lemma RelaxKeepsOrder(g: Graph, start: Node, q: seq<Node>, dist: map<Node, Dist>, prev: map<Node, Option<Node>>,
                        done: set<Node>, order: map<Node, nat>, count: nat, u: Node, j: nat)
    requires dist.Keys == g.Keys + {start} && done <= g.Keys
    requires Settled(dist, done, q) && Rooted(g, start, dist, prev) && Ordered(prev, done, order, count)
    requires u in g && j < |g[u]| && g[u][j].0 in dist
    requires forall a :: a in done ==> AtMost(dist[a], dist[u])
    requires Less(Add(dist[u], g[u][j].1), dist[g[u][j].0])
    ensures var v, alt := g[u][j].0, Add(dist[u], g[u][j].1);
      && v !in done && v in g && alt.Fin?
      && Settled(dist[v := alt], done, q)
      && Rooted(g, start, dist[v := alt], prev[v := Some(u)])
      && Ordered(prev[v := Some(u)], done, order, count)
  {
    var v, alt := g[u][j].0, Add(dist[u], g[u][j].1);
    RelaxTarget(g, start, dist, done, u, j);
    SettledAfterRelax(dist, done, q, v, alt);
    RootedAfterRelax(g, start, dist, prev, v, alt, u);
    OrderedAfterRelax(prev, done, order, count, v, u);
  }

  /** One successful relaxation of entry `j` of `u`'s list, lowering `v` to `alt`, keeps the search invariants. */
  lemma SearchingAfterRelax(g: Graph, start: Node, q: seq<Node>, dist: map<Node, Dist>, prev: map<Node, Option<Node>>,
                            done: set<Node>, relaxed: set<Node>, order: map<Node, nat>, count: nat,
                            u: Node, j: nat, v: Node, alt: Dist)
    requires Searching(g, start, q, dist, prev, done, relaxed, order, count)
    requires u in relaxed && u in g && j < |g[u]| && v == g[u][j].0 && v in dist
    requires forall a :: a in done ==> AtMost(dist[a], dist[u])
    requires alt == Add(dist[u], g[u][j].1) && Less(alt, dist[v])
    ensures v !in done && Searching(g, start, q, dist[v := alt], prev[v := Some(u)], done, relaxed, order, count)
  {
    RelaxKeepsOrder(g, start, q, dist, prev, done, order, count, u, j);
    PrevTightAfterRelax(g, dist, prev, relaxed, u, j);
  }

  /**
    One pass over `u`'s adjacency list: an entry whose neighbour has a tentative distance
    is relaxed when going through `u` is strictly shorter. A neighbour with no distance
    entry is never relaxed, since comparing with an undefined value is false.
   */
  method RelaxNeighbours(g: Graph, start: Node, u: Node, dist: map<Node, Dist>, prev: map<Node, Option<Node>>,
                         ghost q: seq<Node>, ghost done: set<Node>, ghost relaxed: set<Node>,
                         ghost order: map<Node, nat>, ghost count: nat)
    returns (dist': map<Node, Dist>, prev': map<Node, Option<Node>>)
    requires Searching(g, start, q, dist, prev, done, relaxed, order, count)
    requires u in done && u in g && u !in relaxed
    requires RelaxedFrom(g, dist, relaxed)
    requires forall a :: a in done ==> AtMost(dist[a], dist[u])
    ensures Searching(g, start, q, dist', prev', done, relaxed + {u}, order, count)
    ensures RelaxedFrom(g, dist', relaxed + {u})
    ensures forall a :: a in done ==> dist'[a] == dist[a]
  {
    dist', prev' := dist, prev;
    var j := 0;
    SearchingWiden(g, start, q, dist, prev, done, relaxed, order, count, u);
    while j < |g[u]|
      invariant 0 <= j <= |g[u]|
      invariant Searching(g, start, q, dist', prev', done, relaxed + {u}, order, count)
      invariant RelaxedFrom(g, dist', relaxed)
      invariant forall a :: a in done ==> dist'[a] == dist[a]
      invariant TriangleUpTo(dist', g[u], dist[u], j)
    {
      dist', prev' := RelaxEntry(g, start, u, j, dist', prev', q, done, relaxed, order, count);
      j := j + 1;
    }
    RelaxedFromJoin(g, dist', relaxed, u);
  }

  /** A node just dequeued may join the relaxed set without breaking the search invariants. */
  lemma SearchingWiden(g: Graph, start: Node, q: seq<Node>, dist: map<Node, Dist>, prev: map<Node, Option<Node>>,
                       done: set<Node>, relaxed: set<Node>, order: map<Node, nat>, count: nat, u: Node)
    requires Searching(g, start, q, dist, prev, done, relaxed, order, count) && u in done
    ensures Searching(g, start, q, dist, prev, done, relaxed + {u}, order, count)
  {
  }

  /** Once all of `u`'s entries satisfy the triangle inequality, `u` counts as relaxed. */
  lemma RelaxedFromJoin(g: Graph, dist: map<Node, Dist>, relaxed: set<Node>, u: Node)
    requires RelaxedFrom(g, dist, relaxed) && u in g && u in dist
    requires TriangleUpTo(dist, g[u], dist[u], |g[u]|)
    ensures RelaxedFrom(g, dist, relaxed + {u})
  {
  }

  /**
    The relaxation of entry `j` of `u`'s list: when the distance through `u` is strictly
    below the neighbour's tentative distance, the neighbour takes that distance and `u`
    becomes its predecessor; otherwise nothing changes.
   */
  method RelaxEntry(g: Graph, start: Node, u: Node, j: nat, dist: map<Node, Dist>, prev: map<Node, Option<Node>>,
                    ghost q: seq<Node>, ghost done: set<Node>, ghost relaxed: set<Node>,
                    ghost order: map<Node, nat>, ghost count: nat)
    returns (dist': map<Node, Dist>, prev': map<Node, Option<Node>>)
    requires Searching(g, start, q, dist, prev, done, relaxed + {u}, order, count)
    requires RelaxedFrom(g, dist, relaxed)
    requires u in done && u in g && u !in relaxed && j < |g[u]|
    requires forall a :: a in done ==> AtMost(dist[a], dist[u])
    requires TriangleUpTo(dist, g[u], dist[u], j)
    ensures var v, alt := g[u][j].0, Add(dist[u], g[u][j].1);
            if v in dist && Less(alt, dist[v]) then dist' == dist[v := alt] && prev' == prev[v := Some(u)]
            else dist' == dist && prev' == prev
    ensures dist'.Keys == dist.Keys && prev'.Keys == prev.Keys
    ensures Searching(g, start, q, dist', prev', done, relaxed + {u}, order, count)
    ensures RelaxedFrom(g, dist', relaxed)
    ensures forall a :: a in done ==> dist'[a] == dist[a]
    ensures TriangleUpTo(dist', g[u], dist[u], j + 1)
  {
    var v := g[u][j].0;
    var weight := g[u][j].1;
    dist', prev' := dist, prev;
    if v in dist {
      var alt := Add(dist[u], weight);
      if Less(alt, dist[v]) {
        SearchingAfterRelax(g, start, q, dist, prev, done, relaxed + {u}, order, count, u, j, v, alt);
        RelaxedFromAfterRelax(g, dist, relaxed, v, alt);
        LowerOne(dist, v, alt);
        dist' := dist[v := alt];
        prev' := prev[v := Some(u)];
      }
    }
    TriangleExtend(dist, dist', g[u], dist[u], j);
  }

  /** Every entry before position `j` of `u`'s list satisfies the triangle inequality through `u`. */
  ghost predicate TriangleUpTo(dist: map<Node, Dist>, adj: seq<(Node, nat)>, du: Dist, j: nat)
  {
    forall i :: 0 <= i < j && i < |adj| && adj[i].0 in dist ==> AtMost(dist[adj[i].0], Add(du, adj[i].1))
  }

  /** `after` has the same keys as `before` and no distance grew. */
  ghost predicate Below(after: map<Node, Dist>, before: map<Node, Dist>)
  {
    forall x :: x in before ==> x in after && AtMost(after[x], before[x])
  }

  lemma LowerOne(dist: map<Node, Dist>, v: Node, alt: Dist)
    requires v in dist && Less(alt, dist[v])
    ensures Below(dist[v := alt], dist)
  {
  }

  lemma TriangleExtend(before: map<Node, Dist>, after: map<Node, Dist>, adj: seq<(Node, nat)>, du: Dist, j: nat)
    requires j < |adj| && TriangleUpTo(before, adj, du, j) && Below(after, before) && after.Keys == before.Keys
    requires adj[j].0 in after ==> AtMost(after[adj[j].0], Add(du, adj[j].1))
    ensures TriangleUpTo(after, adj, du, j + 1)
  {
    forall i | 0 <= i < j + 1 && adj[i].0 in after
      ensures AtMost(after[adj[i].0], Add(du, adj[i].1))
    {
      if i < j {
        AtMostTransitive(after[adj[i].0], before[adj[i].0], Add(du, adj[i].1));
      }
    }
  }

  lemma AtMostTransitive(a: Dist, b: Dist, c: Dist)
    requires AtMost(a, b) && AtMost(b, c)
    ensures AtMost(a, c)
  {
  }

  /**
    Lines 38-56 of `dijkstra`: the queue is the graph's key set, so a start that is not a
    key is never dequeued; `u == end` stops the search right after `end` is dequeued
    (the `break` is modelled by `found`).
   */
  method Search(g: Graph, start: Node, end: Node)
    returns (dist: map<Node, Dist>, prev: map<Node, Option<Node>>, found: bool,
             ghost q: seq<Node>, ghost done: set<Node>, ghost relaxed: set<Node>,
             ghost order: map<Node, nat>, ghost count: nat)
    ensures dist.Keys == g.Keys + {start} && prev.Keys == g.Keys
    ensures dist[start] == Fin(0) && (start in g ==> prev[start] == None)
    ensures found <==> end in g
    ensures Searching(g, start, q, dist, prev, done, relaxed, order, count)
    ensures RelaxedFrom(g, dist, relaxed)
    ensures forall a :: a in done && a !in relaxed ==> found && a == end
    ensures found ==> end in done
    ensures |q| == 0 || found
  {
    var queue := AscendingKeys(g.Keys);
    q := queue;
    dist := map v | v in g :: Infinity;
    prev := map v | v in g :: None;
    dist := dist[start := Fin(0)];
    done, relaxed, order, count := {}, {}, map[], 0;
    found := false;

    while |queue| > 0 && !found
      invariant q == queue
      invariant Searching(g, start, q, dist, prev, done, relaxed, order, count)
      invariant RelaxedFrom(g, dist, relaxed)
      invariant forall a :: a in done && a !in relaxed ==> found && a == end
      invariant found <==> end in done
      decreases |queue|
    {
      var k := Pick(queue, dist);
      var u := queue[k];
      Dequeue(g, start, q, dist, prev, done, relaxed, order, count, k);
      queue := queue[..k] + queue[k + 1..];
      q := queue;
      done := done + {u};
      order := order[u := count];
      count := count + 1;
      if u == end {
        found := true;
      } else {
        dist, prev := RelaxNeighbours(g, start, u, dist, prev, q, done, relaxed, order, count);
        relaxed := relaxed + {u};
      }
    }
  }

  /**
    Lines 58-65 of `dijkstra`: starting at `end`, prepend nodes while `prev` names one;
    a node without a `prev` entry (not a key) or with `null` ends the walk.
   */
  method Reconstruct(g: Graph, start: Node, end: Node, dist: map<Node, Dist>, prev: map<Node, Option<Node>>,
                     ghost q: seq<Node>, ghost done: set<Node>, ghost relaxed: set<Node>,
                     ghost order: map<Node, nat>, ghost count: nat)
    returns (path: seq<Node>, ghost ws: seq<nat>)
    requires Searching(g, start, q, dist, prev, done, relaxed, order, count)
    ensures |path| >= 1 && path[|path| - 1] == end
    ensures IsWalk(g, path, ws)
    ensures path[0] !in prev || prev[path[0]] == None
    ensures |path| > 1 ==> path[0] == start
    ensures |path| > 1 ==> end in g && dist[end].Fin? && Sum(ws) == dist[end].d
    ensures start == end ==> path == [end]
  {
    path := [end];
    var cur := end;
    ws := [];
    while cur in prev && prev[cur].Some?
      invariant |path| >= 1 && path[0] == cur && path[|path| - 1] == end
      invariant IsWalk(g, path, ws)
      invariant |path| > 1 ==> cur in relaxed && end in g && dist[cur].Fin? && dist[end].Fin? && dist[cur].d + Sum(ws) == dist[end].d
      invariant start == end ==> path == [end]
      decreases Rank(order, count, cur)
    {
      var u := prev[cur].value;
      assert Tight(g, dist, u, cur);
      ghost var i :| 0 <= i < |g[u]| && g[u][i].0 == cur && dist[cur].d == dist[u].d + g[u][i].1;
      WalkPrepend(g, path, ws, u, i);
      path := [u] + path;
      ws := [g[u][i].1] + ws;
      cur := u;
    }
    if |path| > 1 {
      assert cur in g && prev[cur] == None;
    }
  }

  /**
    `dijkstra(graph, start, end)`: search, then reconstruction. The result is never empty
    and always ends at `end`; it is `[end]` whenever `end` cannot be reached.
   */
  method ShortestPath(g: Graph, start: Node, end: Node) returns (path: seq<Node>)
    ensures |path| >= 1 && path[|path| - 1] == end
    ensures Linked(g, path)
    ensures |path| > 1 ==> path[0] == start
    ensures start == end ==> path == [end]
    ensures !Reachable(g, start, end) ==> path == [end]
    ensures Closed(g) && Reachable(g, start, end) ==>
              path[0] == start && exists ws :: IsWalk(g, path, ws) && NoShorterWalk(g, start, end, Sum(ws))
  {
    var dist, prev, found, q, done, relaxed, order, count := Search(g, start, end);
    ghost var ws;
    path, ws := Reconstruct(g, start, end, dist, prev, q, done, relaxed, order, count);
    WalkIsLinked(g, path, ws);
    if |path| > 1 {
      assert Reachable(g, start, end);
    }
    if Closed(g) && Reachable(g, start, end) {
      ShortestPathIsShortest(g, start, end, q, dist, prev, done, relaxed, found, path, ws);
    }
  }

  /** The closing argument of the search: the reconstructed walk weighs `dist[end]`, which bounds every walk. */
  lemma ShortestPathIsShortest(g: Graph, start: Node, end: Node, q: seq<Node>, dist: map<Node, Dist>,
                               prev: map<Node, Option<Node>>, done: set<Node>, relaxed: set<Node>,
                               found: bool, path: seq<Node>, ws: seq<nat>)
    requires Closed(g) && Reachable(g, start, end)
    requires dist.Keys == g.Keys + {start} && prev.Keys == g.Keys
    requires QueueShape(g, q, done) && relaxed <= done
    requires forall a :: a in done && a !in relaxed ==> found && a == end
    requires found ==> end in done
    requires |q| == 0 || found
    requires Settled(dist, done, q) && RelaxedFrom(g, dist, relaxed) && Rooted(g, start, dist, prev)
    requires |path| >= 1 && path[|path| - 1] == end && IsWalk(g, path, ws)
    requires path[0] !in prev || prev[path[0]] == None
    requires |path| > 1 ==> path[0] in g && end in g && dist[path[0]].Fin? && dist[end].Fin? && dist[path[0]].d + Sum(ws) == dist[end].d
    requires start == end ==> path == [end]
    ensures path[0] == start && exists ws' :: IsWalk(g, path, ws') && NoShorterWalk(g, start, end, Sum(ws'))
  {
    var nodes0 :| |nodes0| >= 1 && nodes0[0] == start && nodes0[|nodes0| - 1] == end && Linked(g, nodes0);
    LinkedIsWalk(g, nodes0);
    var ws0 :| IsWalk(g, nodes0, ws0);
    if |ws0| == 0 {
      assert path == [start];
      assert IsWalk(g, path, []);
    } else {
      WalkStaysInGraph(g, nodes0, ws0);
      assert end in done;
      WalkBound(g, start, dist, q, done, relaxed, end, nodes0, ws0, 0);
      if |path| == 1 {
        assert end == start;
        assert IsWalk(g, path, []);
      } else {
        assert path[0] == start;
        forall nodes, ws' | IsWalk(g, nodes, ws') && nodes[0] == start && nodes[|nodes| - 1] == end
          ensures Sum(ws) <= Sum(ws')
        {
          WalkBound(g, start, dist, q, done, relaxed, end, nodes, ws', 0);
        }
      }
    }
  }
}
