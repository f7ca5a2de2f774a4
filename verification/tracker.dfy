/**
  The walk-progress state of public/index.js and the handlers that change it: loading a
  route, the two `devicemotion` listeners, the walk button and the geolocation watch.
  Each handler body is a transition on `Walker`; the browser's event dispatch is not modelled.
  A handler that throws part way keeps the assignments made before the throw.
 */
module Tracker {
  import opened Common
  import opened Polyline
  import Route

  /** The metres credited for one accepted step sample. */
  const StepLength: nat := 5
  /** The metres credited for one press of the walk button. */
  const ButtonLength: nat := 10
  /** Milliseconds that must strictly pass between two accepted samples of the debounced listener. */
  const DebounceWindow: int := 400

  /** `event.accelerationIncludingGravity`. */
  datatype Accel = Accel(x: real, y: real, z: real)

  /** A geolocation fix (`pos.coords.latitude`, `pos.coords.longitude`). */
  datatype Fix = Fix(lat: real, lon: real)

  /** The rounded haversine distance in metres between two fixes, as the client computes it. */
  type GeoDist = (Fix, Fix) -> nat

  /**
    The page's globals `path`, `totalDistance`, `walked`, `lastPosition`, and the
    `lastStepTime` captured by the debounced listener.
   */
  datatype Walker = Walker(
    path: seq<Point>,
    totalDistance: nat,
    walked: nat,
    lastStepTime: int,
    lastPosition: Option<Fix>)

  /**
    The page as loaded: no route and no fix yet, nothing left to walk, and the page
    invariant already holds whatever the segment lengths.
   */
  function Initial(): (s: Walker)
    ensures forall len: SegLen :: Good(len, s)
    ensures |s.path| == 0 && s.lastPosition.None? && Remaining(s) == 0
  {
    Walker([], 0, 0, 0, None)
  }

  /** A step-like sample: the magnitude of the acceleration exceeds 12, stated on its square. */
  predicate Strong(a: Accel)
  {
    a.x * a.x + a.y * a.y + a.z * a.z > 144.0
  }

  /** Comparing the square with 144 is comparing the magnitude (the non-negative root) with 12. */
  lemma StrongThreshold(a: Accel, netAcc: real)
    requires netAcc >= 0.0 && netAcc * netAcc == a.x * a.x + a.y * a.y + a.z * a.z
    ensures Strong(a) <==> netAcc > 12.0
  {
    if netAcc > 12.0 {
      assert netAcc * netAcc > 12.0 * netAcc;
    } else {
      assert netAcc * netAcc <= 12.0 * netAcc;
    }
  }

  /** Credits `k` metres to the walked distance, capped at the route's total. */
  function Advance(s: Walker, k: nat): (s': Walker)
    ensures s'.walked == if s.walked + k > s.totalDistance then s.totalDistance else s.walked + k
    ensures s'.walked <= s.totalDistance
    ensures s' == s.(walked := s'.walked)
  {
    var w := s.walked + k;
    s.(walked := if w > s.totalDistance then s.totalDistance else w)
  }

  /**
    `drawPath(p)`: `walked` is reset and the route stored; for a non-empty route the total is
    recomputed. An empty route throws at `p[0]` before the total is recomputed, so the old total
    stays. The last fix and the last step time are not reset.
   */
  function LoadRoute(len: SegLen, s: Walker, p: seq<Point>): (s': Walker)
    ensures s'.walked == 0 && s'.path == p
    ensures s'.totalDistance == if |p| == 0 then s.totalDistance else PathLength(len, p)
    ensures s'.lastPosition == s.lastPosition && s'.lastStepTime == s.lastStepTime
  {
    if |p| == 0 then s.(walked := 0, path := p)
    else s.(walked := 0, path := p, totalDistance := PathLength(len, p))
  }

  /**
    `navigate()`: equal selections are rejected; otherwise a reply that carries a `path`
    field is drawn, and any other reply changes nothing.
   */
  function Navigate(len: SegLen, s: Walker, from: string, to: string, reply: Route.Response): (s': Walker)
    ensures from == to ==> s' == s
    ensures from != to && reply.Found? ==> s' == LoadRoute(len, s, reply.path)
    ensures !reply.Found? ==> s' == s
  {
    if from == to then s
    else match reply
      case Found(p) => LoadRoute(len, s, p)
      case _ => s
  }

  /**
    The debounced `devicemotion` listener. A missing reading is ignored; a strong sample more
    than 400 ms after the last accepted one is accepted, which records its time and credits a step.
   */
  function DebouncedSample(s: Walker, acc: Option<Accel>, now: int): (s': Walker)
    ensures (acc.Some? && Strong(acc.value) && now - s.lastStepTime > DebounceWindow) ==>
              s' == Advance(s, StepLength).(lastStepTime := now)
    ensures !(acc.Some? && Strong(acc.value) && now - s.lastStepTime > DebounceWindow) ==> s' == s
  {
    if acc.None? then s
    else if Strong(acc.value) && now - s.lastStepTime > DebounceWindow then
      Advance(s.(lastStepTime := now), StepLength)
    else s
  }

  /**
    The second `devicemotion` listener, without debounce. A missing reading throws before
    anything changes; a strong sample credits a step.
   */
  function RawSample(s: Walker, acc: Option<Accel>): (s': Walker)
    ensures acc.Some? && Strong(acc.value) ==> s' == Advance(s, StepLength)
    ensures !(acc.Some? && Strong(acc.value)) ==> s' == s
  {
    match acc
    case None => s
    case Some(a) => if Strong(a) then Advance(s, StepLength) else s
  }

  /** The walk button credits ten metres, capped at the route's total; nothing else changes. */
  function WalkButton(s: Walker): (s': Walker)
    ensures s'.walked <= s'.totalDistance
    ensures s.walked + ButtonLength <= s.totalDistance ==> s'.walked == s.walked + ButtonLength
    ensures s.walked + ButtonLength > s.totalDistance ==> s'.walked == s.totalDistance
    ensures s' == s.(walked := s'.walked)
  {
    Advance(s, ButtonLength)
  }

  /**
    The geolocation watch. The first fix only records itself. A later fix credits the rounded
    distance from the previous one and then redraws; with no route drawn the redraw throws and
    the previous fix is kept.
   */
  function PositionFix(geo: GeoDist, s: Walker, pos: Fix): (s': Walker)
    ensures s.lastPosition.None? ==> s' == s.(lastPosition := Some(pos))
    ensures s.lastPosition.Some? ==> s'.walked == Advance(s, geo(s.lastPosition.value, pos)).walked
    ensures s.lastPosition.Some? && |s.path| == 0 ==> s'.lastPosition == s.lastPosition
    ensures |s.path| > 0 ==> s'.lastPosition == Some(pos)
    ensures s'.path == s.path && s'.totalDistance == s.totalDistance && s'.lastStepTime == s.lastStepTime
  {
    match s.lastPosition
    case None => s.(lastPosition := Some(pos))
    case Some(last) =>
      var s1 := Advance(s, geo(last, pos));
      if |s1.path| == 0 then s1 else s1.(lastPosition := Some(pos))
  }

  /** The metres still to walk, never negative. */
  function Remaining(s: Walker): (r: nat)
    ensures r == 0 <==> s.walked >= s.totalDistance
    ensures r > 0 ==> s.walked + r == s.totalDistance
  {
    if s.totalDistance - s.walked > 0 then s.totalDistance - s.walked else 0
  }

  /** One event delivered to the page. */
  datatype Event =
    | RouteRequested(from: string, to: string, reply: Route.Response)
    | MotionDebounced(acc: Option<Accel>, now: int)
    | MotionRaw(acc: Option<Accel>)
    | ButtonPressed
    | PositionChanged(pos: Fix)

  /**
    The handler for one event. Every handler keeps the page invariant; only a route reply
    changes the route or its total or lowers the walked distance; only the debounced
    listener touches the step time and only the geolocation watch the last fix.
   */
  function Step(len: SegLen, geo: GeoDist, s: Walker, e: Event): (s': Walker)
    ensures Good(len, s) ==> Good(len, s')
    ensures !e.RouteRequested? ==> s'.path == s.path && s'.totalDistance == s.totalDistance
    ensures Good(len, s) && !e.RouteRequested? ==> s'.walked >= s.walked
    ensures !e.MotionDebounced? ==> s'.lastStepTime == s.lastStepTime
    ensures !e.PositionChanged? ==> s'.lastPosition == s.lastPosition
  {
    match e
    case RouteRequested(from, to, reply) => Navigate(len, s, from, to, reply)
    case MotionDebounced(acc, now) => DebouncedSample(s, acc, now)
    case MotionRaw(acc) => RawSample(s, acc)
    case ButtonPressed => WalkButton(s)
    case PositionChanged(pos) => PositionFix(geo, s, pos)
  }

  /**
    A sequence of events handled in order. Whatever the events and their order, the page
    invariant holds throughout, so `0 <= walked <= totalDistance` always.
   */
  function Run(len: SegLen, geo: GeoDist, s: Walker, es: seq<Event>): (s': Walker)
    ensures Good(len, s) ==> Good(len, s')
    decreases |es|
  {
    if |es| == 0 then s else Run(len, geo, Step(len, geo, s, es[0]), es[1..])
  }

  /**
    The invariant of the page: the walked distance never exceeds the total, and a drawn
    route's total is its length.
   */
  predicate Good(len: SegLen, s: Walker)
  {
    && s.walked <= s.totalDistance
    && (|s.path| > 0 ==> s.totalDistance == PathLength(len, s.path))
  }

  /** Events that cannot draw a route. */
  predicate NoRoutes(es: seq<Event>)
  {
    forall i :: 0 <= i < |es| ==> !es[i].RouteRequested?
  }

  /** Between route loads the walked distance never decreases, and the route and total stay put. */
  lemma {:induction false} RunMonotone(len: SegLen, geo: GeoDist, s: Walker, es: seq<Event>)
    requires Good(len, s) && NoRoutes(es)
    ensures var s' := Run(len, geo, s, es);
            s'.walked >= s.walked && s'.path == s.path && s'.totalDistance == s.totalDistance
    decreases |es|
  {
    if |es| > 0 {
      assert !es[0].RouteRequested?;
      assert NoRoutes(es[1..]) by {
        forall i | 0 <= i < |es| - 1 ensures !es[1..][i].RouteRequested? {
          assert es[1..][i] == es[i + 1];
        }
      }
      RunMonotone(len, geo, Step(len, geo, s, es[0]), es[1..]);
    }
  }

  /**
    Debounce: strong samples at `t`, `t + 300` and `t + 500` credit two steps, the middle one
    falling inside the window of the first.
   */
  lemma DebounceExample(len: SegLen, geo: GeoDist, s: Walker, a: Accel, t: int)
    requires Strong(a) && s.lastStepTime + DebounceWindow < t
    ensures var s' := Run(len, geo, s, [MotionDebounced(Some(a), t), MotionDebounced(Some(a), t + 300), MotionDebounced(Some(a), t + 500)]);
            && s'.lastStepTime == t + 500
            && s'.walked == Advance(Advance(s, StepLength), StepLength).walked
  {
    var es := [MotionDebounced(Some(a), t), MotionDebounced(Some(a), t + 300), MotionDebounced(Some(a), t + 500)];
    var s1 := DebouncedSample(s, Some(a), t);
    var s2 := DebouncedSample(s1, Some(a), t + 300);
    var s3 := DebouncedSample(s2, Some(a), t + 500);
    assert s1 == Advance(s, StepLength).(lastStepTime := t);
    assert s2 == s1;
    assert s3 == Advance(s1, StepLength).(lastStepTime := t + 500);
    assert es[1..][1..][1..] == [];
    calc {
      Run(len, geo, s, es);
      Run(len, geo, s1, es[1..]);
      Run(len, geo, s2, es[1..][1..]);
      Run(len, geo, s3, es[1..][1..][1..]);
    }
  }

  /**
    Both motion listeners run for the same strong sample, so once the debounce window has
    passed one physical step is credited twice.
   */
  lemma BothListenersDoubleCount(len: SegLen, geo: GeoDist, s: Walker, a: Accel, now: int)
    requires Good(len, s) && Strong(a) && now - s.lastStepTime > DebounceWindow
    ensures var s' := Run(len, geo, s, [MotionDebounced(Some(a), now), MotionRaw(Some(a))]);
            s'.walked == Advance(s, 2 * StepLength).walked
  {
    var es := [MotionDebounced(Some(a), now), MotionRaw(Some(a))];
    var s1 := DebouncedSample(s, Some(a), now);
    var s2 := RawSample(s1, Some(a));
    assert s1.walked == Advance(s, StepLength).walked && s1.totalDistance == s.totalDistance;
    assert s2.walked == Advance(s1, StepLength).walked;
    assert es[1..][1..] == [];
    calc {
      Run(len, geo, s, es);
      Run(len, geo, s1, es[1..]);
      Run(len, geo, s2, es[1..][1..]);
    }
  }

  /**
    On a drawn route, the first fix only records itself and the second credits the rounded
    distance between the two, capped at the total; the second then becomes the last fix.
   */
  lemma TwoFixes(len: SegLen, geo: GeoDist, s: Walker, p1: Fix, p2: Fix)
    requires s.lastPosition.None? && |s.path| > 0
    ensures var s' := Run(len, geo, s, [PositionChanged(p1), PositionChanged(p2)]);
            && s'.walked == Advance(s, geo(p1, p2)).walked
            && s'.lastPosition == Some(p2)
  {
    var es := [PositionChanged(p1), PositionChanged(p2)];
    var s1 := PositionFix(geo, s, p1);
    var s2 := PositionFix(geo, s1, p2);
    assert s1 == s.(lastPosition := Some(p1));
    assert s2.walked == Advance(s1, geo(p1, p2)).walked && s2.lastPosition == Some(p2);
    assert es[1..][1..] == [];
    calc {
      Run(len, geo, s, es);
      Run(len, geo, s1, es[1..]);
      Run(len, geo, s2, es[1..][1..]);
    }
  }

  /**
    On a drawn route the display shows nothing remaining exactly when the green line reaches
    the last point, and otherwise the remaining metres are the total less the walked ones.
   */
  lemma RemainingMatchesWalk(len: SegLen, s: Walker)
    requires Good(len, s) && |s.path| >= 1
    ensures Remaining(s) == 0 <==> Walk(len, s.path, s.walked).AllWalked?
    ensures Remaining(s) == s.totalDistance - s.walked
  {
    WalkCharacterised(len, s.path, s.walked);
  }

  /** A route load followed by walking its whole length leaves nothing remaining. */
  lemma WalkToTheEnd(len: SegLen, s: Walker, p: seq<Point>)
    requires |p| >= 1
    ensures var s' := Advance(LoadRoute(len, s, p), PathLength(len, p));
            Remaining(s') == 0 && GreenLine(len, s'.path, s'.walked) == p
  {
    var s' := Advance(LoadRoute(len, s, p), PathLength(len, p));
    assert s'.path == p && s'.walked == PathLength(len, p) && s'.totalDistance == PathLength(len, p);
    WalkedAll(len, p);
  }
}
