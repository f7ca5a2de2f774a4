/**
  The `/shortest-path` handler of server/index.js with its I/O turned into inputs:
  build the graph, run the search, resolve node ids to coordinates.
 */
module Route {
  import opened Common
  import opened Graphs
  import opened Dijkstra

  /** One row of the `locations(id, x, y)` query result. */
  datatype Location = Location(id: Node, x: real, y: real)

  /** Why the handler answered with status 500. */
  datatype Failure = GraphBuildFailed | CoordinatesFailed

  /** The handler's three answers: 200 with a polyline, 404 "No path found", or 500. */
  datatype Response = Found(path: seq<Point>) | NoPath | ServerError(failure: Failure)

  /**
    The id-to-coordinates table built from the location rows, one row at a time in
    order: one entry per distinct id of the rows.
   */
  function LocationMap(rows: seq<Location>): (locs: map<Node, Point>)
    ensures locs.Keys == set i | 0 <= i < |rows| :: rows[i].id
    decreases |rows|
  {
    if |rows| == 0 then map[]
    else
      var init := rows[..|rows| - 1];
      var r := rows[|rows| - 1];
      assert forall i :: 0 <= i < |init| ==> rows[i] == init[i];
      LocationMap(init)[r.id := Point(r.x, r.y)]
  }

  /** When an id repeats, the later row wins: every id maps to the coordinates of its last row. */
  lemma {:induction false} LocationMapLastRowWins(rows: seq<Location>, i: nat)
    requires i < |rows|
    requires forall j :: i < j < |rows| ==> rows[j].id != rows[i].id
    ensures LocationMap(rows)[rows[i].id] == Point(rows[i].x, rows[i].y)
    decreases |rows|
  {
    if i < |rows| - 1 {
      var init := rows[..|rows| - 1];
      assert init[i] == rows[i];
      LocationMapLastRowWins(init, i);
    }
  }

  /**
    The polyline of a path: each id is replaced by its coordinates, and ids without
    coordinates are dropped.
   */
  function Resolve(path: seq<Node>, locs: map<Node, Point>): (pts: seq<Point>)
    ensures |pts| <= |path|
    ensures forall i :: 0 <= i < |pts| ==> pts[i] in locs.Values
    ensures (forall i :: 0 <= i < |path| ==> path[i] !in locs) ==> pts == []
    decreases |path|
  {
    if |path| == 0 then []
    else (if path[0] in locs then [locs[path[0]]] else []) + Resolve(path[1..], locs)
  }

  /** The ids of `path` that have coordinates, in path order. */
  function Kept(path: seq<Node>, locs: map<Node, Point>): (ids: seq<Node>)
    ensures forall i :: 0 <= i < |ids| ==> ids[i] in locs
    ensures forall id :: multiset(ids)[id] == if id in locs then multiset(path)[id] else 0
    decreases |path|
  {
    if |path| == 0 then []
    else
      var rest := Kept(path[1..], locs);
      assert path == [path[0]] + path[1..];
      if path[0] in locs then [path[0]] + rest else rest
  }

  /** Coordinates of a sequence of ids that all have them. */
  function Lookup(ids: seq<Node>, locs: map<Node, Point>): (pts: seq<Point>)
    requires forall i :: 0 <= i < |ids| ==> ids[i] in locs
    ensures |pts| == |ids| && forall i :: 0 <= i < |ids| ==> pts[i] == locs[ids[i]]
  {
    seq(|ids|, i requires 0 <= i < |ids| => locs[ids[i]])
  }

  /** Mapping then filtering is filtering then mapping: the polyline is the located ids' coordinates, in order. */
  lemma {:induction false} ResolveIsLookupOfKept(path: seq<Node>, locs: map<Node, Point>)
    ensures Resolve(path, locs) == Lookup(Kept(path, locs), locs)
    decreases |path|
  {
    if |path| > 0 {
      ResolveIsLookupOfKept(path[1..], locs);
    }
  }

  /** Resolution distributes over concatenation, so it never reorders the path. */
  lemma {:induction false} ResolveAppend(a: seq<Node>, b: seq<Node>, locs: map<Node, Point>)
    ensures Resolve(a + b, locs) == Resolve(a, locs) + Resolve(b, locs)
    decreases |a|
  {
    if |a| > 0 {
      assert (a + b)[0] == a[0];
      assert (a + b)[1..] == a[1..] + b;
      ResolveAppend(a[1..], b, locs);
      var head := if a[0] in locs then [locs[a[0]]] else [];
      calc {
        Resolve(a + b, locs);
        head + Resolve(a[1..] + b, locs);
        head + (Resolve(a[1..], locs) + Resolve(b, locs));
        (head + Resolve(a[1..], locs)) + Resolve(b, locs);
        Resolve(a, locs) + Resolve(b, locs);
      }
    } else {
      assert a + b == b;
    }
  }

  /** Nothing is dropped exactly when every id on the path has coordinates. */
  lemma {:induction false} ResolveKeepsAll(path: seq<Node>, locs: map<Node, Point>)
    ensures |Resolve(path, locs)| == |path| <==> forall i :: 0 <= i < |path| ==> path[i] in locs
    decreases |path|
  {
    if |path| > 0 {
      ResolveKeepsAll(path[1..], locs);
      if path[0] in locs {
        assert forall i :: 1 <= i < |path| ==> path[i] == path[1..][i - 1];
      }
    }
  }

  /** The last point of the polyline is the location of the path's last id, when it has one. */
  lemma ResolveLast(path: seq<Node>, locs: map<Node, Point>)
    requires |path| >= 1 && path[|path| - 1] in locs
    ensures var pts := Resolve(path, locs); |pts| >= 1 && pts[|pts| - 1] == locs[path[|path| - 1]]
  {
    var n := |path|;
    assert path == path[..n - 1] + [path[n - 1]];
    ResolveAppend(path[..n - 1], [path[n - 1]], locs);
    assert Resolve([path[n - 1]], locs) == [locs[path[n - 1]]];
  }

  /**
    What resolution makes of a reconstructed path: its last point is the target's location,
    a trivial path resolves to at most that point, and a path that starts at a located
    source starts at its location.
   */
  lemma ResolveReconstructed(path: seq<Node>, locs: map<Node, Point>, from: Node, to: Node, trivial: bool, fromFirst: bool)
    requires |path| >= 1 && path[|path| - 1] == to
    requires trivial ==> path == [to]
    requires fromFirst ==> path[0] == from
    ensures var pts := Resolve(path, locs);
            && (to in locs ==> |pts| >= 1 && pts[|pts| - 1] == locs[to])
            && (trivial ==> pts == if to in locs then [locs[to]] else [])
            && (fromFirst && from in locs ==> |pts| >= 1 && pts[0] == locs[from])
  {
    if to in locs {
      ResolveLast(path, locs);
    }
    if fromFirst && from in locs {
      assert path == [path[0]] + path[1..];
      ResolveAppend([path[0]], path[1..], locs);
    }
  }

  /**
    The coordinates callback of the handler: a failed query answers 500, otherwise the path
    is resolved against the rows. `trivial` and `fromFirst` are what the search promised
    about the path: it is just the target, and it starts at the source.
   */
  method RespondWithCoordinates(path: seq<Node>, locations: Option<seq<Location>>, from: Node, to: Node,
                                ghost trivial: bool, ghost fromFirst: bool)
    returns (resp: Response)
    requires |path| >= 1 && path[|path| - 1] == to
    requires trivial ==> path == [to]
    requires fromFirst ==> path[0] == from
    ensures locations.None? ==> resp == ServerError(CoordinatesFailed)
    ensures locations.Some? ==>
              var locs := LocationMap(locations.value);
              && resp == Found(Resolve(path, locs))
              && (to in locs ==> |resp.path| >= 1 && resp.path[|resp.path| - 1] == locs[to])
              && (trivial ==> resp.path == if to in locs then [locs[to]] else [])
              && (fromFirst && from in locs ==> |resp.path| >= 1 && resp.path[0] == locs[from])
  {
    if locations.None? {
      resp := ServerError(CoordinatesFailed);
    } else {
      var locs := LocationMap(locations.value);
      ResolveReconstructed(path, locs, from, to, trivial, fromFirst);
      resp := Found(Resolve(path, locs));
    }
  }

  /**
    The handler once the graph is built: search for a path to `to` (`None` when the
    parameter is missing or empty, the only case in which the path is empty), then
    answer 404 for an empty path or resolve it against the location rows. `route` is the
    node path the polyline was resolved from.
   */
  method AnswerFromGraph(g: Graph, locations: Option<seq<Location>>, from: Node, to: Option<Node>)
    returns (resp: Response, ghost route: seq<Node>)
    requires Closed(g)
    ensures resp == NoPath <==> to.None?
    ensures to.Some? && locations.None? ==> resp == ServerError(CoordinatesFailed)
    ensures to.Some? && locations.Some? ==> resp.Found?
    ensures resp.Found? ==>
              var locs := LocationMap(locations.value);
              && (to.value in locs ==> |resp.path| >= 1 && resp.path[|resp.path| - 1] == locs[to.value])
              && (from == to.value || !Reachable(g, from, to.value) ==>
                    resp.path == if to.value in locs then [locs[to.value]] else [])
              && (Reachable(g, from, to.value) && from in locs ==> |resp.path| >= 1 && resp.path[0] == locs[from])
    ensures resp.Found? ==>
              && |route| >= 1 && route[|route| - 1] == to.value && Linked(g, route)
              && resp.path == Resolve(route, LocationMap(locations.value))
              && (!Reachable(g, from, to.value) ==> route == [to.value])
              && (Reachable(g, from, to.value) ==>
                    route[0] == from && exists ws :: IsWalk(g, route, ws) && NoShorterWalk(g, from, to.value, Sum(ws)))
  {
    var path: seq<Node> := [];
    if to.Some? {
      path := ShortestPath(g, from, to.value);
    }
    route := path;
    if |path| == 0 {
      resp := NoPath;
    } else {
      ghost var reachable := Reachable(g, from, to.value);
      resp := RespondWithCoordinates(path, locations, from, to.value, from == to.value || !reachable, reachable);
    }
  }

  /**
    The `/shortest-path` handler. `edges` and `locations` are the two query results
    (`None` when the query failed); `to` is `None` when the parameter is missing or
    empty, the only case in which the reconstructed path is empty. `route` is the node
    path the polyline was resolved from.
   */
  method HandleShortestPath(edges: Option<seq<Edge>>, locations: Option<seq<Location>>, from: Node, to: Option<Node>)
    returns (resp: Response, ghost route: seq<Node>)
    ensures edges.None? ==> resp == ServerError(GraphBuildFailed)
    ensures edges.Some? ==> (resp == NoPath <==> to.None?)
    ensures edges.Some? && to.Some? && locations.None? ==> resp == ServerError(CoordinatesFailed)
    ensures edges.Some? && to.Some? && locations.Some? ==> resp.Found?
    ensures resp.Found? ==>
              var locs := LocationMap(locations.value);
              && (to.value in locs ==> |resp.path| >= 1 && resp.path[|resp.path| - 1] == locs[to.value])
              && (from == to.value || !Reachable(BuildGraph(edges.value), from, to.value) ==>
                    resp.path == if to.value in locs then [locs[to.value]] else [])
              && (Reachable(BuildGraph(edges.value), from, to.value) && from in locs ==> |resp.path| >= 1 && resp.path[0] == locs[from])
    ensures resp.Found? ==>
              var g := BuildGraph(edges.value);
              && |route| >= 1 && route[|route| - 1] == to.value && Linked(g, route)
              && resp.path == Resolve(route, LocationMap(locations.value))
              && (!Reachable(g, from, to.value) ==> route == [to.value])
              && (Reachable(g, from, to.value) ==>
                    route[0] == from && exists ws :: IsWalk(g, route, ws) && NoShorterWalk(g, from, to.value, Sum(ws)))
  {
    route := [];
    if edges.None? {
      resp := ServerError(GraphBuildFailed);
    } else {
      BuildGraphSymmetric(edges.value);
      resp, route := AnswerFromGraph(BuildGraph(edges.value), locations, from, to);
    }
  }
}
