/** `generateSVG`'s fixed-count segment encoder: the valid points are cut
    into `k` index windows (`SEGMENT_COUNT` = 100 in the creator page), each
    kept window becomes one segment that shares its last point with the
    next, and each segment is revealed at the normalised key times of its
    first and last point. The DOM nodes of the source become plain records. */
module Encoder {
  import opened Points
  import opened Windows

  /** The number of index windows the creator page uses. */
  const SEGMENT_COUNT: nat := 100

  /** The fixed canvas size written on the root element. */
  const WIDTH: nat := 600
  const HEIGHT: nat := 300

  /** A JavaScript number that a key-time division can yield. */
  datatype Num = Finite(value: real) | PosInfinity | NegInfinity | NaN

  /** JavaScript's `a / b` for finite `a` and `b`; a zero `b` is the `+0`
      that subtracting two equal times gives. */
  function Divide(a: real, b: real): (r: Num)
    ensures r.Finite? <==> b != 0.0
    ensures r.Finite? ==> r.value * b == a
    ensures r == NaN <==> a == 0.0 && b == 0.0
    ensures r == PosInfinity <==> a > 0.0 && b == 0.0
    ensures r == NegInfinity <==> a < 0.0 && b == 0.0
  {
    if b != 0.0 then Finite(a / b)
    else if a > 0.0 then PosInfinity
    else if a < 0.0 then NegInfinity
    else NaN
  }

  /** The key time of instant `t`: `(t - startTime) / 1000 / totalDuration`,
      the fraction of the total duration in seconds that has passed at `t`;
      with no duration at all it is `NaN` at `startTime` and an infinity
      elsewhere. */
  function KeyTime(t: real, startTime: real, totalDuration: real): (r: Num)
    ensures r.Finite? <==> totalDuration != 0.0
    ensures r.Finite? ==> r.value * totalDuration * 1000.0 == t - startTime
    ensures r == NaN <==> t == startTime && totalDuration == 0.0
  {
    Divide((t - startTime) / 1000.0, totalDuration)
  }

  /** One command of a path's `d` attribute. */
  datatype PathCommand = MoveTo(x: real, y: real) | LineTo(x: real, y: real)

  /** One `<path>` with its visibility `<animate>`: the points it draws, its
      path data, the key times `t1` and `t2` at which it becomes visible,
      and the animation duration in seconds. */
  datatype Segment = Segment(points: seq<Point>, path: seq<PathCommand>, t1: Num, t2: Num, dur: real)

  /** The generated `<svg>`: canvas size, total duration in seconds and the
      segments in document order. */
  datatype Animation = Animation(width: nat, height: nat, totalDuration: real, segments: seq<Segment>)

  /** A polyline's path data: one command per point, a move to the first
      point and a line to each later one. */
  predicate DrawsPolyline(d: seq<PathCommand>, points: seq<Point>)
  {
    && |d| == |points|
    && forall j :: 0 <= j < |d| ==>
         d[j].x == points[j].x && d[j].y == points[j].y && (d[j].MoveTo? <==> j == 0)
  }

  /** The path data of the polyline through `points`. */
  function PathOf(points: seq<Point>): (d: seq<PathCommand>)
    ensures DrawsPolyline(d, points)
  {
    seq(|points|, j requires 0 <= j < |points| =>
      if j == 0 then MoveTo(points[j].x, points[j].y) else LineTo(points[j].x, points[j].y))
  }

  /** Path data names each point exactly once, so it determines the polyline. */
  lemma PathDataUnique(d1: seq<PathCommand>, d2: seq<PathCommand>, points: seq<Point>)
    requires DrawsPolyline(d1, points) && DrawsPolyline(d2, points)
    ensures d1 == d2
  {
    forall j | 0 <= j < |d1|
      ensures d1[j] == d2[j]
    {
      if j == 0 {
        assert d1[j].MoveTo? && d2[j].MoveTo?;
      } else {
        assert d1[j].LineTo? && d2[j].LineTo?;
      }
    }
  }

  /** The `pathD` loop: `M x0 y0` and then ` L xj yj` for every later point. */
  method BuildPath(points: seq<Point>) returns (d: seq<PathCommand>)
    requires |points| > 0
    ensures d == PathOf(points)
  {
    d := [MoveTo(points[0].x, points[0].y)];
    for j := 1 to |points|
      invariant DrawsPolyline(d, points[..j])
    {
      d := d + [LineTo(points[j].x, points[j].y)];
    }
    assert points[..|points|] == points;
    PathDataUnique(d, PathOf(points), points);
  }

  /** The segment that the loop emits for span `sp`. */
  function MakeSegment(pts: seq<Point>, sp: Span, startTime: real, totalDuration: real): (seg: Segment)
    requires sp.lo < sp.hi <= |pts|
    ensures seg.points == pts[sp.lo..sp.hi] && |seg.points| == sp.hi - sp.lo
    ensures DrawsPolyline(seg.path, seg.points)
    ensures seg.t1 == KeyTime(pts[sp.lo].time, startTime, totalDuration)
    ensures seg.t2 == KeyTime(pts[sp.hi - 1].time, startTime, totalDuration)
    ensures seg.dur == totalDuration
  {
    var ps := pts[sp.lo..sp.hi];
    Segment(ps, PathOf(ps), KeyTime(ps[0].time, startTime, totalDuration),
            KeyTime(ps[|ps| - 1].time, startTime, totalDuration), totalDuration)
  }

  /** The segments of the given spans, in order. */
  function SegmentsOf(pts: seq<Point>, sps: seq<Span>, startTime: real, totalDuration: real): (segs: seq<Segment>)
    requires InRange(sps, |pts|)
    ensures |segs| == |sps|
  {
    seq(|sps|, j requires 0 <= j < |sps| => MakeSegment(pts, sps[j], startTime, totalDuration))
  }

  /** The spans the loop over `k` windows of `n` valid points keeps. */
  function LoopSpans(n: nat, k: nat): seq<Span>
    requires k > 0
  {
    Spans(Bounds(n, k), n, k)
  }

  /** The kept spans form a linked chain from index 0 to `n`, one span at
      most per window, and exist exactly when at least two points do. */
  lemma LoopSpansShape(n: nat, k: nat)
    requires k > 0
    ensures var sps := LoopSpans(n, k);
      && Linked(sps, n)
      && |sps| <= k
      && (sps != [] <==> n >= 2)
      && (sps != [] ==> sps[0].lo == 0 && sps[|sps| - 1].hi == n)
  {
    BoundsPartition(n, k);
    SpansCover(Bounds(n, k), n);
  }

  /** The segments the loop over `k` windows of the valid points `pts` emits. */
  function Segments(pts: seq<Point>, k: nat, startTime: real, totalDuration: real): (segs: seq<Segment>)
    requires k > 0
    ensures |segs| <= k
    ensures segs != [] <==> |pts| >= 2
  {
    LoopSpansShape(|pts|, k);
    SegmentsOf(pts, LoopSpans(|pts|, k), startTime, totalDuration)
  }

  /** The segment loop of `generateSVG` over the valid points `pts`. */
  method EncodeSegments(pts: seq<Point>, k: nat, startTime: real, totalDuration: real) returns (segs: seq<Segment>)
    requires k > 0
    ensures segs == Segments(pts, k, startTime, totalDuration)
  {
    var n := |pts|;
    ghost var b := Bounds(n, k);
    BoundsPartition(n, k);
    SpansInvariant(b, n, 0);
    segs := [];
    for i := 0 to k
      invariant InRange(Spans(b, n, i), n)
      invariant segs == SegmentsOf(pts, Spans(b, n, i), startTime, totalDuration)
    {
      var startIdx := i * n / k;
      var endIdx := (i + 1) * n / k;
      assert startIdx == b[i] && endIdx == b[i + 1];
      SegmentsStep(pts, b, i, startTime, totalDuration);
      if startIdx >= endIdx {
        continue;
      }
      // `slice(startIdx, endIdx + 1)` stops at the end of the points.
      var segmentPoints := pts[startIdx..Min(endIdx + 1, n)];
      if |segmentPoints| < 2 {
        continue;
      }
      var pathD := BuildPath(segmentPoints);
      var t1 := KeyTime(segmentPoints[0].time, startTime, totalDuration);
      var t2 := KeyTime(segmentPoints[|segmentPoints| - 1].time, startTime, totalDuration);
      segs := segs + [Segment(segmentPoints, pathD, t1, t2, totalDuration)];
    }
  }

  /** What one pass of the loop body adds to the segments: the segment of
      window `i` when that window is kept, nothing otherwise. */
  lemma SegmentsStep(pts: seq<Point>, b: seq<nat>, i: nat, startTime: real, totalDuration: real)
    requires Partition(b, |pts|) && i + 1 < |b|
    ensures InRange(Spans(b, |pts|, i), |pts|) && InRange(Spans(b, |pts|, i + 1), |pts|)
    ensures var n, s, e := |pts|, b[i], b[i + 1];
      SegmentsOf(pts, Spans(b, n, i + 1), startTime, totalDuration)
      == SegmentsOf(pts, Spans(b, n, i), startTime, totalDuration)
         + if s >= e || Min(e + 1, n) < s + 2 then []
           else [MakeSegment(pts, Span(i, s, Min(e + 1, n)), startTime, totalDuration)]
  {
    var n, s, e := |pts|, b[i], b[i + 1];
    SpansInvariant(b, n, i);
    SpansInvariant(b, n, i + 1);
    var sps := Spans(b, n, i);
    if s >= e || Min(e + 1, n) < s + 2 {
      assert Spans(b, n, i + 1) == sps;
    } else {
      var sp := Span(i, s, Min(e + 1, n));
      assert Spans(b, n, i + 1) == sps + [sp];
      assert forall j :: 0 <= j < |sps| ==> (sps + [sp])[j] == sps[j];
    }
  }

  /** `generateSVG` as a value: nothing when fewer than two points were
      captured, otherwise the animation with the duration in seconds from
      the first to the last valid point and the segments of `k` windows. */
  method Encode(entries: seq<Entry>, k: nat) returns (doc: Option<Animation>)
    requires k > 0
    ensures doc.None? <==> |Samples(entries)| < 2
    ensures doc.Some? ==>
      var pts := Samples(entries);
      && doc.value.width == WIDTH && doc.value.height == HEIGHT
      && doc.value.totalDuration == (pts[|pts| - 1].time - pts[0].time) / 1000.0
      && doc.value.segments == Segments(pts, k, pts[0].time, doc.value.totalDuration)
  {
    if |Samples(entries)| < 2 {
      return None;
    }
    var startTime := FirstSample(entries).value.time;
    var lastPoint := LastSample(entries).value;
    var endTime := lastPoint.time;
    var totalDuration := (endTime - startTime) / 1000.0;
    var validPoints := Samples(entries);
    var segments := EncodeSegments(validPoints, k, startTime, totalDuration);
    return Some(Animation(WIDTH, HEIGHT, totalDuration, segments));
  }
}
