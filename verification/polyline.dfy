/**
  The geometry of public/index.js: the route length computed when a route is drawn, and
  the walked prefix that `drawWalkProgress` paints in green along the polyline.
  The rounded Euclidean length of a segment is a given `nat`-valued function.
 */
module Polyline {
  import opened Common

  /** The rounded length of the segment between two points, as the client computes it. */
  type SegLen = (Point, Point) -> nat

  /** Length of the first `k` segments of the polyline, `p[0]` to `p[k]`. */
  function Prefix(len: SegLen, p: seq<Point>, k: nat): nat
    requires k == 0 || k < |p|
  {
    if k == 0 then 0 else Prefix(len, p, k - 1) + len(p[k - 1], p[k])
  }

  /** Length of the whole polyline: the rounded lengths of all its segments added up. */
  function PathLength(len: SegLen, p: seq<Point>): nat
  {
    if |p| == 0 then 0 else Prefix(len, p, |p| - 1)
  }

  /** The rounded lengths of the consecutive segments of `p`, in order. */
  function Lengths(len: SegLen, p: seq<Point>): (ls: seq<nat>)
    ensures |p| >= 1 ==> |ls| == |p| - 1
    ensures |p| <= 1 ==> ls == []
    ensures forall i :: 0 <= i < |ls| ==> ls[i] == len(p[i], p[i + 1])
  {
    if |p| <= 1 then [] else seq(|p| - 1, i requires 0 <= i < |p| - 1 => len(p[i], p[i + 1]))
  }

  /** The length of a prefix is the sum of the rounded lengths of its segments. */
  lemma {:induction false} PrefixIsSum(len: SegLen, p: seq<Point>, k: nat)
    requires k < |p|
    ensures Prefix(len, p, k) == Sum(Lengths(len, p)[..k])
  {
    if k > 0 {
      PrefixIsSum(len, p, k - 1);
      SumExtend(Lengths(len, p), k - 1);
    }
  }

  /** The route length is the sum of all rounded segment lengths. */
  lemma PathLengthIsSum(len: SegLen, p: seq<Point>)
    ensures PathLength(len, p) == Sum(Lengths(len, p))
  {
    if |p| > 0 {
      PrefixIsSum(len, p, |p| - 1);
      assert Lengths(len, p)[..|p| - 1] == Lengths(len, p);
    }
  }

  /** The `totalDistance` loop of `drawPath`: the accumulated rounded segment lengths. */
  method TotalDistance(len: SegLen, p: seq<Point>) returns (total: nat)
    ensures total == Sum(Lengths(len, p))
    ensures total == PathLength(len, p)
    ensures |p| <= 1 ==> total == 0
  {
    total := 0;
    var i := 0;
    while i < |p| - 1
      invariant i == 0 || i < |p|
      invariant total == Prefix(len, p, i)
    {
      total := total + len(p[i], p[i + 1]);
      i := i + 1;
    }
    PathLengthIsSum(len, p);
  }

  /** Extending a polyline leaves the lengths of its prefixes unchanged. */
  lemma {:induction false} PrefixOfExtension(len: SegLen, p: seq<Point>, q: Point, k: nat)
    requires k < |p|
    ensures Prefix(len, p + [q], k) == Prefix(len, p, k)
  {
    if k > 0 {
      PrefixOfExtension(len, p, q, k - 1);
      assert (p + [q])[k - 1] == p[k - 1] && (p + [q])[k] == p[k];
    }
  }

  /** A one-point polyline has length zero, and appending a point adds one segment's length. */
  lemma PathLengthExtend(len: SegLen, p: seq<Point>, q: Point)
    requires |p| >= 1
    ensures PathLength(len, [p[0]]) == 0
    ensures PathLength(len, p + [q]) == PathLength(len, p) + len(p[|p| - 1], q)
  {
    PrefixOfExtension(len, p, q, |p| - 1);
    assert (p + [q])[|p| - 1] == p[|p| - 1] && (p + [q])[|p|] == q;
  }

  /** Lengths of longer prefixes are never smaller. */
  lemma {:induction false} PrefixMonotone(len: SegLen, p: seq<Point>, j: nat, k: nat)
    requires j <= k && (k == 0 || k < |p|)
    ensures Prefix(len, p, j) <= Prefix(len, p, k)
    decreases k
  {
    if j < k {
      PrefixMonotone(len, p, j, k - 1);
    }
  }

  /** Where the green walked line stops. */
  datatype Progress =
    | /** Every segment was consumed whole: the line reaches the last point. */
      AllWalked
    | /** The loop broke in segment `p[segment - 1]`–`p[segment]`, `leftover` metres along it. */
      Stopped(segment: nat, leftover: nat)

  /** `remaining / segLen` for a partial segment: a fraction in [0, 1). */
  function Ratio(remaining: nat, segLen: nat): (r: real)
    requires remaining < segLen
    ensures 0.0 <= r < 1.0
  {
    remaining as real / segLen as real
  }

  /**
    The segment loop of `drawWalkProgress` from index `i` with `remaining` metres left:
    a segment no longer than `remaining` is consumed whole, otherwise the loop breaks
    inside it with `remaining` metres left over, to be drawn at `remaining / segLen`.
   */
  function WalkFrom(len: SegLen, p: seq<Point>, i: nat, remaining: nat): (w: Progress)
    requires 1 <= i <= |p|
    ensures w.Stopped? ==>
              && i <= w.segment < |p|
              && w.leftover < len(p[w.segment - 1], p[w.segment])
    decreases |p| - i
  {
    if i == |p| then AllWalked
    else
      var segLen := len(p[i - 1], p[i]);
      if remaining >= segLen then WalkFrom(len, p, i + 1, remaining - segLen)
      else Stopped(i, remaining)
  }

  /**
    The walk of `drawWalkProgress` for `walked` metres. The partial branch is reached only
    when the leftover is shorter than the segment, so the segment has positive length, the
    division never divides by zero and the ratio lies in [0, 1).
   */
  function Walk(len: SegLen, p: seq<Point>, walked: nat): (w: Progress)
    requires |p| >= 1
    ensures w.Stopped? ==>
              && 1 <= w.segment < |p|
              && w.leftover < len(p[w.segment - 1], p[w.segment])
              && 0.0 <= Ratio(w.leftover, len(p[w.segment - 1], p[w.segment])) < 1.0
  {
    WalkFrom(len, p, 1, walked)
  }

  /** Number of segments consumed whole: all of them exactly when the walked distance covers the route. */
  function Consumed(len: SegLen, p: seq<Point>, walked: nat): (c: nat)
    requires |p| >= 1
    ensures c <= |p| - 1
    ensures c == |p| - 1 <==> walked >= PathLength(len, p)
  {
    WalkCharacterised(len, p, walked);
    match Walk(len, p, walked)
    case AllWalked => |p| - 1
    case Stopped(k, _) => k - 1
  }

  /** The point a `ratio` of the way from `a` to `b`. */
  function Interpolate(a: Point, b: Point, ratio: real): (m: Point)
    ensures ratio == 0.0 ==> m == a
    ensures ratio == 1.0 ==> m == b
  {
    Point(a.x + (b.x - a.x) * ratio, a.y + (b.y - a.y) * ratio)
  }

  /**
    The vertices of the green line: the consumed prefix of the path, then, unless the whole
    route is covered, the point inside the next segment that lies as far along it as the
    walked distance exceeds the consumed segments.
   */
  function GreenLine(len: SegLen, p: seq<Point>, walked: nat): (line: seq<Point>)
    requires |p| >= 1
    ensures |line| >= 1 && line[0] == p[0]
    ensures var c := Consumed(len, p, walked); c < |line| && line[..c + 1] == p[..c + 1]
    ensures walked >= PathLength(len, p) ==> line == p
    ensures walked < PathLength(len, p) ==>
              var c := Consumed(len, p, walked);
              && c + 1 < |p| && |line| == c + 2
              && Prefix(len, p, c) <= walked < Prefix(len, p, c + 1)
              && line[c + 1] == Interpolate(p[c], p[c + 1], (walked - Prefix(len, p, c)) as real / len(p[c], p[c + 1]) as real)
  {
    WalkCharacterised(len, p, walked);
    match Walk(len, p, walked)
    case AllWalked => p
    case Stopped(k, left) => p[..k] + [Interpolate(p[k - 1], p[k], Ratio(left, len(p[k - 1], p[k])))]
  }

  /**
    A stop in segment `k` means the first `k - 1` segments fit in `walked` and the first `k`
    do not, and the leftover is what `walked` exceeds the first `k - 1` segments by.
   */
  predicate StopIsFirstUnfitSegment(len: SegLen, p: seq<Point>, walked: nat, w: Progress)
  {
    w.Stopped? && 1 <= w.segment < |p| ==>
      var k := w.segment;
      && Prefix(len, p, k - 1) <= walked < Prefix(len, p, k)
      && w.leftover == walked - Prefix(len, p, k - 1)
  }

  /**
    The loop from index `i`, with `remaining` left after the first `i - 1` segments,
    completes exactly when the whole path fits in the walked distance.
   */
  lemma {:induction false} WalkFromCompletes(len: SegLen, p: seq<Point>, i: nat, remaining: nat, walked: nat)
    requires 1 <= i <= |p|
    requires Prefix(len, p, i - 1) + remaining == walked
    ensures WalkFrom(len, p, i, remaining).AllWalked? <==> walked >= PathLength(len, p)
    decreases |p| - i
  {
    if i < |p| {
      var segLen := len(p[i - 1], p[i]);
      if remaining >= segLen {
        WalkFromCompletes(len, p, i + 1, remaining - segLen, walked);
      } else {
        StopBounds(len, p, i, remaining, walked);
      }
    }
  }

  /**
    The loop from index `i`, with `remaining` left after the first `i - 1` segments, stops
    in the first segment that does not fit, at the leftover distance over its length.
   */
  lemma {:induction false} WalkFromStops(len: SegLen, p: seq<Point>, i: nat, remaining: nat, walked: nat)
    requires 1 <= i <= |p|
    requires Prefix(len, p, i - 1) + remaining == walked
    ensures StopIsFirstUnfitSegment(len, p, walked, WalkFrom(len, p, i, remaining))
    decreases |p| - i
  {
    if i < |p| {
      var segLen := len(p[i - 1], p[i]);
      if remaining >= segLen {
        WalkFromStops(len, p, i + 1, remaining - segLen, walked);
      } else {
        StopBounds(len, p, i, remaining, walked);
      }
    }
  }

  /** The segment where the loop breaks is the first one that does not fit, so the walk stops short of the end. */
  lemma StopBounds(len: SegLen, p: seq<Point>, i: nat, remaining: nat, walked: nat)
    requires 1 <= i < |p|
    requires Prefix(len, p, i - 1) + remaining == walked
    requires remaining < len(p[i - 1], p[i])
    ensures Prefix(len, p, i - 1) <= walked < Prefix(len, p, i)
    ensures walked < PathLength(len, p)
  {
    PrefixMonotone(len, p, i, |p| - 1);
  }

  /** `Walk` completes exactly when `walked` covers the path, and otherwise stops where the prefix lengths say. */
  lemma WalkCharacterised(len: SegLen, p: seq<Point>, walked: nat)
    requires |p| >= 1
    ensures Walk(len, p, walked).AllWalked? <==> walked >= PathLength(len, p)
    ensures StopIsFirstUnfitSegment(len, p, walked, Walk(len, p, walked))
  {
    WalkFromCompletes(len, p, 1, walked, walked);
    WalkFromStops(len, p, 1, walked, walked);
  }

  /** The count of whole segments is the largest `c` whose prefix fits in the walked distance. */
  lemma ConsumedCharacterised(len: SegLen, p: seq<Point>, walked: nat)
    requires |p| >= 1
    ensures var c := Consumed(len, p, walked);
            && Prefix(len, p, c) <= walked
            && (c < |p| - 1 ==> walked < Prefix(len, p, c + 1))
  {
    WalkCharacterised(len, p, walked);
  }

  /** Walking further never un-consumes a segment. */
  lemma ConsumedMonotone(len: SegLen, p: seq<Point>, w1: nat, w2: nat)
    requires |p| >= 1 && w1 <= w2
    ensures Consumed(len, p, w1) <= Consumed(len, p, w2)
  {
    var c1, c2 := Consumed(len, p, w1), Consumed(len, p, w2);
    ConsumedCharacterised(len, p, w1);
    ConsumedCharacterised(len, p, w2);
    if c2 < c1 {
      PrefixMonotone(len, p, c2 + 1, c1);
      assert false;
    }
  }

  /** With the whole length walked, every segment is consumed and the green line is the whole path. */
  lemma WalkedAll(len: SegLen, p: seq<Point>)
    requires |p| >= 1
    ensures Walk(len, p, PathLength(len, p)) == AllWalked
    ensures GreenLine(len, p, PathLength(len, p)) == p
    ensures Consumed(len, p, PathLength(len, p)) == |p| - 1
  {
    WalkCharacterised(len, p, PathLength(len, p));
  }

  /** With nothing walked and a first segment of positive length, the green line ends at the first point. */
  lemma WalkedNothing(len: SegLen, p: seq<Point>)
    requires |p| >= 2 && len(p[0], p[1]) > 0
    ensures Walk(len, p, 0) == Stopped(1, 0)
    ensures GreenLine(len, p, 0) == [p[0], p[0]]
  {
  }

  /**
    A worked example: with segments of rounded length 3 and 4, walking 3 stops exactly at
    the middle point, and walking 5 stops half way along the second segment.
   */
  lemma WorkedExample(len: SegLen, a: Point, b: Point, c: Point)
    requires len(a, b) == 3 && len(b, c) == 4
    ensures PathLength(len, [a, b, c]) == 7
    ensures Walk(len, [a, b, c], 3) == Stopped(2, 0)
    ensures GreenLine(len, [a, b, c], 3) == [a, b, b]
    ensures Walk(len, [a, b, c], 5) == Stopped(2, 2)
    ensures GreenLine(len, [a, b, c], 5) == [a, b, Interpolate(b, c, 0.5)]
  {
    var p := [a, b, c];
    assert Prefix(len, p, 1) == 3;
    assert p[..2] == [a, b];
    assert WalkFrom(len, p, 2, 0) == Stopped(2, 0);
    assert WalkFrom(len, p, 2, 2) == Stopped(2, 2);
    assert Ratio(2, 4) == 0.5;
  }
}
