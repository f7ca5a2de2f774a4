# Hospital indoor navigation: route computation and walk progress

This project models the two computational cores of a small indoor-navigation web app.

The server core answers `GET /shortest-path?from=&to=`. It turns the `edges` table into an
undirected adjacency map (`buildGraph`) and runs a linear-scan Dijkstra with predecessor-based
path reconstruction (`dijkstra`). It then maps the node ids of the path to the `(x, y)`
coordinates of the `locations` table, dropping ids that have none.

The client core draws that polyline on a map overlay and keeps a walk-progress state:
- the route length `totalDistance`, a sum of rounded segment lengths;
- the `walked` counter;
- the time of the last accepted step;
- the last geolocation fix.

Three sources advance `walked`: step samples from the accelerometer (two listeners, one
debounced), a manual walk button, and geolocation fixes. Each increment is clamped from above
by the route length. The green "walked" line follows the polyline for `walked` metres and ends
with an interpolated point inside the first segment that does not fit.

Modules:
- `Common` (`common.dfy`): `Option`, node ids, points, sums of weights.
- `Graphs` (`graph.dfy`): the edge list, the adjacency map built from it, and walks in it.
- `Dijkstra` (`dijkstra.dfy`): the search, its invariants, reconstruction and optimality.
- `Route` (`route.dfy`): the handler's coordinate resolution and its three answers.
- `Polyline` (`polyline.dfy`): route length and the walked-prefix computation.
- `Tracker` (`tracker.dfy`): the client state and every handler as a pure transition.

Modelling choices:
- Node ids are unbounded naturals. The model assumes they stay below 2^32 - 1, the range of
  JavaScript array indices; larger ids are listed under "## Left out". Array-index object keys
  enumerate in ascending numeric order, so the Dijkstra queue is the ascending sequence of
  graph keys. Removing an element from a `Set` keeps the order of the others.
- `distances[v]` is `Dist`: a finite natural or `Infinity`. `Less` is JavaScript's `<` on
  these values. A neighbour without a `distances` entry is never relaxed, because
  `alt < undefined` is false.
- The `break` on `u == end` is a `found` flag that ends the loop.
- Segment lengths (`Math.round(Math.hypot(...))`) and geolocation deltas (the rounded haversine
  distance) are given `nat`-valued functions. Interpolation uses exact `real`s. `netAcc > 12`
  is stated on the squared magnitude, `x² + y² + z² > 144`.
- A client handler that throws part way keeps the assignments made before the throw.
  - `drawPath([])` resets `walked` and stores the empty path, then throws at `p[0]`, so
    `totalDistance` keeps its old value.
  - With no route drawn, `drawWalkProgress` throws, so the geolocation handler never reaches
    `lastPosition = ...` when a previous fix exists.
  - A missing acceleration reading makes the undebounced listener throw before it changes anything.

Behaviour of the code worth knowing:
- For an unreachable `end`, or one absent from the graph, reconstruction returns `[end]`.
  The handler's 404 branch is therefore reached only when `to` is missing or empty. An
  unreachable destination yields a 200 answer whose polyline has at most one point.
- The clamp is from above only: `walked` can never be negative because every increment is
  non-negative.
- Loading a route resets `walked` only. It keeps the last fix and the last step time.
- With segments of rounded length 3 and 4 and 5 metres walked, the green line stops half
  way along the second segment, 2 of its 4 metres.

## Model

| member | source | states |
|---|---|---|
| Graphs.AddEdge | server/index.js:28-31 | one edge adds its endpoints as keys and appends its entries to their lists, the twin entry too; every other list is unchanged |
| Graphs.BuildGraph | server/index.js:23-35 | the graph's keys are exactly the endpoints of the edges, and no edges give the empty graph |
| Graphs.BuildGraphLists | server/index.js:27-32 | each node's adjacency list is its incident entries in edge-list order, one entry per incident edge |
| Graphs.BuildGraphSymmetric | server/index.js:30-31 | for every entry (b, d) in a's list, b is a key and (a, d) is in b's list, so every neighbour is a key |
| Graphs.BuildGraphHasEdges | server/index.js:30-31 | for every edge (a, b, d), a's list contains (b, d) and b's list contains (a, d) |
| Graphs.BuildGraphEntryCount | server/index.js:27-32 | the lists hold exactly twice as many entries as there are edges |
| Dijkstra.Pick | server/index.js:46 | the strict-less reduce picks a queued node of least distance, and every later node in the queue is strictly farther, so ties go to the later candidate |
| Dijkstra.AscendingKeys | server/index.js:38 | the initial queue holds exactly the graph keys, strictly increasing |
| Dijkstra.Dequeue | server/index.js:46-47 | removing the picked node keeps the queue exactly the unvisited keys, and the new node is no closer than any earlier dequeued node |
| Dijkstra.RelaxNeighbours | server/index.js:49-55 | after relaxing u's list, every entry of u satisfies the triangle inequality and the visited nodes' distances are unchanged |
| Dijkstra.RelaxEntry | server/index.js:50-54 | exactly when the neighbour has a distance entry and the distance through u is strictly smaller, the neighbour takes that distance and u as predecessor; otherwise, a tie included, nothing changes; the key sets, the search invariants and the dequeued distances are kept |
| Dijkstra.SearchingAfterRelax | server/index.js:51-53 | one relaxation preserves queue shape, settledness, tight predecessor links, the start as only root and the dequeue order |
| Dijkstra.RelaxKeepsOrder | server/index.js:51-53 | an improved neighbour has not been dequeued; lowering it keeps the dequeued nodes settled, the start the only root and predecessors dequeued earlier |
| Dijkstra.RelaxTarget | server/index.js:50-51 | a node whose distance improves is a graph key other than the start and has not been dequeued |
| Dijkstra.WalkBound | server/index.js:45-56 | no walk to a settled node is shorter than its final distance |
| Dijkstra.Search | server/index.js:38-56 | the distance and predecessor maps keep one entry per key (plus the start's 0); `end` is dequeued exactly when it is a graph key; the search ends with the queue empty or the end dequeued, and every dequeued node except the end has had its list relaxed |
| Dijkstra.Reconstruct | server/index.js:58-65 | following predecessors from end gives a non-empty walk ending at end; if it has more than one node it starts at start and weighs dist[end] |
| Dijkstra.ShortestPath | server/index.js:37-66 | the path ends at end and is never empty; consecutive nodes are adjacent; start == end gives [end]; an unreachable or absent end gives [end]; a reachable end gives a path from start that no walk beats |
| Dijkstra.ShortestPathIsShortest | server/index.js:38-56 | when the search stops, the reconstructed path starts at start and weighs no more than any start-to-end walk |
| Route.LocationMap | server/index.js:79-80 | the map has one key per distinct location id |
| Route.LocationMapLastRowWins | server/index.js:80 | a repeated id maps to the coordinates of its last row |
| Route.Resolve | server/index.js:82 | the polyline is never longer than the path, every point is some location's coordinates, and a path with no located id gives no points |
| Route.Kept | server/index.js:82 | the kept ids all have coordinates, and each id with coordinates keeps its multiplicity in the path |
| Route.ResolveIsLookupOfKept | server/index.js:82 | mapping then filtering equals looking up the kept ids in path order |
| Route.ResolveAppend | server/index.js:82 | resolution distributes over concatenation, so it keeps the path's order |
| Route.ResolveKeepsAll | server/index.js:82 | nothing is dropped exactly when every id on the path has coordinates |
| Route.ResolveLast | server/index.js:82 | a located last id gives the polyline's last point |
| Route.ResolveReconstructed | server/index.js:79-84 | the polyline ends at the target's location; a one-node path gives at most that point; a path from a located source starts at its location |
| Route.RespondWithCoordinates | server/index.js:76-84 | a failed coordinate query gives 500; otherwise 200 with the resolved path, whose last point is the target's location and whose first is the located source's |
| Route.AnswerFromGraph | server/index.js:73-84 | on a closed graph: a 200 polyline is the resolution of a linked node path that ends at the target, is just the target when that is unreachable, and otherwise starts at the source and is no heavier than any walk; 404 exactly when `to` is missing; a failed coordinate query gives 500; otherwise 200 with a polyline that ends at the target's location, is at most that point when the target is the source or unreachable, and starts at the located source when reachable |
| Route.HandleShortestPath | server/index.js:68-85 | a 200 polyline is the resolution of a shortest node path of the built graph (just the target when unreachable); a failed edge query gives 500; 404 exactly when `to` is missing; a failed coordinate query gives 500; otherwise 200 with a polyline that ends at the target's location and starts at the source's when reachable |
| Polyline.TotalDistance | public/index.js:52-57 | the loop's total is the sum of the rounded segment lengths, and 0 for at most one point |
| Polyline.PrefixIsSum | public/index.js:52-57 | after k iterations the running total is the sum of the first k rounded segment lengths |
| Polyline.PathLengthIsSum | public/index.js:52-57 | the route length is the sum of all rounded segment lengths |
| Polyline.PrefixOfExtension | public/index.js:52-57 | appending a point leaves every earlier running total unchanged |
| Polyline.PrefixMonotone | public/index.js:52-57 | running totals never decrease along the route |
| Polyline.PathLengthExtend | public/index.js:52-57 | a one-point route has length 0, and appending a point adds one segment's length |
| Polyline.Ratio | public/index.js:106 | the partial ratio of a leftover shorter than its segment lies in [0, 1) |
| Polyline.WalkFrom | public/index.js:97-111 | a break happens at or after the starting segment, with a leftover shorter than that segment, so the segment has positive length and the division is defined |
| Polyline.Walk | public/index.js:93-112 | the walk stops, if at all, inside a real segment of positive length with a ratio in [0, 1) |
| Polyline.Consumed | public/index.js:102-104 | the whole-segment count is at most the number of segments, and equals it exactly when walked covers the route |
| Polyline.Interpolate | public/index.js:107-108 | ratio 0 gives the segment's start and ratio 1 its end |
| Polyline.GreenLine | public/index.js:93-112 | the green line starts at the first point and repeats the path up to the last consumed vertex; it is the whole path when walked covers the route, and otherwise has one more vertex, the point that lies (walked minus the consumed segments) over the segment's length along the next segment |
| Polyline.WalkFromCompletes | public/index.js:97-104 | the loop consumes every segment exactly when the walked distance covers the whole route |
| Polyline.WalkFromStops | public/index.js:102-110 | the loop breaks in the first segment whose end lies beyond the walked distance, with the walked distance beyond the earlier segments left over |
| Polyline.StopBounds | public/index.js:102-106 | a break in segment i means the first i-1 segments fit and the first i do not |
| Polyline.WalkCharacterised | public/index.js:93-112 | the walk completes iff walked covers the route; otherwise it stops in the segment the prefix lengths select, with walked minus the earlier segments left over |
| Polyline.ConsumedCharacterised | public/index.js:102-104 | the number of whole segments is the largest count whose prefix fits in walked |
| Polyline.ConsumedMonotone | public/index.js:102-104 | walking further never reduces the number of whole segments |
| Polyline.WalkedAll | public/index.js:93-112 | with walked equal to the route length, every segment is consumed and the green line is the whole path |
| Polyline.WalkedNothing | public/index.js:93-112 | with nothing walked and a positive first segment, the walk stops at the start of the first segment and the green line is the first point twice |
| Polyline.WorkedExample | public/index.js:93-112 | segments 3 and 4: length 7; walked 3 stops exactly at the middle point; walked 5 stops half way along the second segment |
| Tracker.Initial | public/index.js:9 | the page starts in the invariant (walked within the total) for every segment-length function, with no route, no fix and nothing remaining |
| Tracker.StrongThreshold | public/index.js:153-156 | comparing the squared magnitude with 144 decides exactly whether the magnitude exceeds 12, the step test of both listeners |
| Tracker.Advance | public/index.js:158-159 | an increment followed by the upper clamp leaves walked at most the total and changes nothing else |
| Tracker.LoadRoute | public/index.js:28-57 | loading resets walked and stores the route; the total becomes the route length, or stays stale for an empty route; the last fix and step time are kept |
| Tracker.Navigate | public/index.js:68-77 | equal selections and replies without a path change nothing; a reply with a path loads it |
| Tracker.DebouncedSample | public/index.js:149-162 | a sample credits 5 and records its time iff it is present, strong, and more than 400 ms after the last accepted one; otherwise nothing changes |
| Tracker.RawSample | public/index.js:175-184 | a sample credits 5 iff it is present and strong; otherwise nothing changes |
| Tracker.WalkButton | public/index.js:167-171 | a press credits 10 when that stays within the total and otherwise sets walked to the total; nothing else changes |
| Tracker.PositionFix | public/index.js:196-213 | the first fix only records itself; a later fix credits the rounded distance from the last one; with a route drawn the fix becomes the last one, and without one the old fix is kept |
| Tracker.Remaining | public/index.js:63 | the remaining metres are 0 iff walked reaches the total, and otherwise add up with walked to the total |
| Tracker.Step | public/index.js:147-213 | each handler keeps walked within the total and a drawn route's total equal to its length; only a route reply changes the route or total or lowers walked; only the debounced listener changes the step time and only the geolocation watch the last fix |
| Tracker.Run | public/index.js:147-213 | over any sequence of events, 0 <= walked <= totalDistance holds, and a drawn route's total is its length |
| Tracker.RunMonotone | public/index.js:158-206 | without route loads, walked never decreases and the route and total stay the same |
| Tracker.DebounceExample | public/index.js:156-158 | strong samples at t, t+300 and t+500 credit two steps and leave the step time at t+500 |
| Tracker.BothListenersDoubleCount | public/index.js:175-184 | one strong sample past the debounce window is credited by both listeners, 10 metres in all |
| Tracker.TwoFixes | public/index.js:196-213 | on a drawn route two fixes in a row credit the rounded distance between them, capped at the total, and the second becomes the last fix |
| Tracker.RemainingMatchesWalk | public/index.js:63 | on a drawn route nothing remains exactly when the green line reaches the last point, and the remaining metres are total minus walked |
| Tracker.WalkToTheEnd | public/index.js:52-63 | after loading a route and walking its full length, nothing remains and the green line is the whole route |

## Left out

- MySQL connection, queries and Express routing, CORS and static serving (server/index.js:1-21, 25, 76, 89-91): I/O. The edge list and location rows are inputs, and a failed query is `None`.
- Query strings that are not canonical decimal ids, such as "01" or "5abc", and a missing `from`. JavaScript compares such keys as strings and `parseInt` normalises them; the model takes ids as naturals. A missing `from` behaves like a start that is not a graph key.
- Negative and fractional edge weights. The `distance` column is taken as a natural. A fractional distance is abstracted away. With a negative weight the predecessor chain of the source could form a cycle, and reconstruction would not terminate.
- Node ids at or above 2^32 - 1. JavaScript enumerates such keys in insertion order, here their first appearance in the edge list, not numerically. That order would change which node `Pick` chooses among equally close ones.
- Distances are exact naturals. JavaScript numbers lose integer precision above 2^53; that is not modelled.
- Canvas and DOM drawing (`drawMarkers`, strokes, `clearRect`, text content), URL-parameter prefill, `alert` and the `fetch` in `navigate` (public/index.js:1-8, 11-26, 34-50, 64-65, 73-76, 113-124). Only the state they change and the points of the green line are modelled. The reply of `fetch` is the handler's `Response`.
- The haversine function (public/index.js:223-233) and `Math.hypot`/`Math.round`: floating-point operations, given as `nat`-valued functions.
- Sensor permission flow, listener registration and the order in which events from different sources and overlapping route replies arrive (public/index.js:128-144, 149, 175, 190-196, 214-220). Each handler body is a transition; `Run` takes any order of events.
- `walkIndex` (public/index.js:31): assigned and never read.
- The trailing repository URL at public/index.js:235: not code.
