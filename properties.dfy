/** What the segment encoder guarantees about the segments it emits: they
    are the slices of their index windows, consecutive segments share
    exactly one point, joined back together they give the valid points, and
    with time-ordered points and a positive duration their key times are
    ordered inside [0, 1]. */
module SegmentProperties {
  import opened Points
  import opened Windows
  import opened Encoder

  /** The last element of a non-empty sequence of points. */
  function Last(s: seq<Point>): Point
    requires |s| > 0
  {
    s[|s| - 1]
  }

  /** Sample times never decrease along the points. */
  predicate TimeOrdered(pts: seq<Point>)
  {
    forall i, j :: 0 <= i <= j < |pts| ==> pts[i].time <= pts[j].time
  }

  /** The point lists of the segments, in order. */
  function PointsOf(segs: seq<Segment>): (parts: seq<seq<Point>>)
    ensures |parts| == |segs|
  {
    seq(|segs|, j requires 0 <= j < |segs| => segs[j].points)
  }

  /** The point lists joined back together, dropping from every part after
      the first the point it shares with the part before. */
  function Stitch(parts: seq<seq<Point>>): seq<Point>
  {
    if parts == [] then []
    else if |parts| == 1 then parts[0]
    else
      var tail := parts[|parts| - 1];
      Stitch(parts[..|parts| - 1]) + (if tail == [] then [] else tail[1..])
  }

  /** The slices of `pts` the spans select. */
  function Slices(pts: seq<Point>, sps: seq<Span>): (parts: seq<seq<Point>>)
    requires InRange(sps, |pts|)
    ensures |parts| == |sps|
  {
    seq(|sps|, j requires 0 <= j < |sps| => pts[sps[j].lo..sps[j].hi])
  }

  /** A prefix of a linked chain is linked. */
  lemma LinkedPrefix(sps: seq<Span>, n: nat, m: nat)
    requires Linked(sps, n) && m <= |sps|
    ensures Linked(sps[..m], n)
  {
    var front := sps[..m];
    forall j, j' | 0 <= j && j' == j + 1 < |front|
      ensures front[j].w < front[j'].w && front[j].hi == front[j'].lo + 1
    {
      assert front[j] == sps[j] && front[j'] == sps[j'];
    }
  }

  /** Stitching one more part appends all of it but its first point. */
  lemma StitchSnoc(parts: seq<seq<Point>>, p: seq<Point>)
    requires parts != [] && p != []
    ensures Stitch(parts + [p]) == Stitch(parts) + p[1..]
  {
    assert (parts + [p])[..|parts|] == parts;
  }

  /** Stitching the slices of a linked chain gives the points from the
      chain's first index to its last. */
  lemma {:induction false} StitchSlices(pts: seq<Point>, sps: seq<Span>)
    requires Linked(sps, |pts|) && sps != []
    ensures sps[0].lo < sps[|sps| - 1].hi
    ensures Stitch(Slices(pts, sps)) == pts[sps[0].lo..sps[|sps| - 1].hi]
    decreases |sps|
  {
    if |sps| > 1 {
      var m := |sps| - 1;
      var front := sps[..m];
      LinkedPrefix(sps, |pts|, m);
      StitchSlices(pts, front);
      var parts := Slices(pts, sps);
      assert parts == Slices(pts, front) + [parts[m]];
      StitchSnoc(Slices(pts, front), parts[m]);
      assert front[0] == sps[0] && front[m - 1] == sps[m - 1];
      var lo, mid, hi := sps[0].lo, sps[m - 1].hi, sps[m].hi;
      assert mid == sps[m].lo + 1;
      assert parts[m][1..] == pts[mid..hi];
      assert pts[lo..mid] + pts[mid..hi] == pts[lo..hi];
    }
  }

  /** The segments of a linked chain: each one's last point is the next
      one's first, and so the next one's `t1` is the previous one's `t2`.
      `==` on `Num` is equality of the emitted `keyTimes` values, so it
      holds for two `NaN`s, unlike JavaScript's `NaN !== NaN`. */
  lemma ChainSharesOnePoint(pts: seq<Point>, sps: seq<Span>, startTime: real, totalDuration: real)
    requires Linked(sps, |pts|)
    ensures var segs := SegmentsOf(pts, sps, startTime, totalDuration);
      forall j, j' :: 0 <= j && j' == j + 1 < |segs| ==>
        |segs[j].points| > 0 && |segs[j'].points| > 0 &&
        Last(segs[j].points) == segs[j'].points[0] && segs[j'].t1 == segs[j].t2
  {
    var segs := SegmentsOf(pts, sps, startTime, totalDuration);
    forall j, j' | 0 <= j && j' == j + 1 < |segs|
      ensures |segs[j].points| > 0 && |segs[j'].points| > 0
      ensures Last(segs[j].points) == segs[j'].points[0] && segs[j'].t1 == segs[j].t2
    {
      assert sps[j].hi == sps[j'].lo + 1;
    }
  }

  /** A chain from index 0 to the end of the points: its first segment
      starts at the first point and its last one ends at the last point. */
  lemma ChainEnds(pts: seq<Point>, sps: seq<Span>, startTime: real, totalDuration: real)
    requires Linked(sps, |pts|) && sps != []
    requires sps[0].lo == 0 && sps[|sps| - 1].hi == |pts|
    ensures var segs := SegmentsOf(pts, sps, startTime, totalDuration);
      && |pts| >= 2 && segs[0].points != [] && segs[0].points[0] == pts[0]
      && segs[|segs| - 1].points != [] && Last(segs[|segs| - 1].points) == Last(pts)
  {
    assert sps[0].lo + 2 <= sps[0].hi <= |pts|;
    assert sps[|sps| - 1].lo + 2 <= sps[|sps| - 1].hi;
  }

  /** A ratio of two offsets inside `[0, d]` lies in `[0, 1]` and keeps
      their order. */
  lemma RatioInUnit(a: real, c: real, d: real)
    requires 0.0 <= a <= c <= d && d > 0.0
    ensures 0.0 <= a / d <= c / d <= 1.0
  {
    var ra, rc := a / d, c / d;
    assert ra * d == a && rc * d == c;
    assert (rc - ra) * d == c - a;
    assert (1.0 - rc) * d == d - c;
  }

  /** The key time of a point of time-ordered points, taken from the first
      point's time over a positive duration that spans to the last one, is
      finite, in `[0, 1]`, and grows with the point's index. */
  lemma KeyTimeOfIndex(pts: seq<Point>, i: nat, j: nat, totalDuration: real)
    requires i <= j < |pts| && TimeOrdered(pts)
    requires totalDuration == (Last(pts).time - pts[0].time) / 1000.0 && totalDuration > 0.0
    ensures var ti, tj := KeyTime(pts[i].time, pts[0].time, totalDuration), KeyTime(pts[j].time, pts[0].time, totalDuration);
      ti.Finite? && tj.Finite? && 0.0 <= ti.value <= tj.value <= 1.0
  {
    assert pts[0].time <= pts[i].time <= pts[j].time <= pts[|pts| - 1].time;
    RatioInUnit((pts[i].time - pts[0].time) / 1000.0, (pts[j].time - pts[0].time) / 1000.0, totalDuration);
  }

  /** Every emitted segment is the slice of `pts` its kept span selects,
      with at least two points, its path data drawing exactly those points,
      and the duration it was given; there are at most `k` segments. */
  lemma SegmentsAreSlices(pts: seq<Point>, k: nat, startTime: real, totalDuration: real)
    requires k > 0
    ensures var segs, sps := Segments(pts, k, startTime, totalDuration), LoopSpans(|pts|, k);
      && |segs| == |sps| <= k
      && forall j :: 0 <= j < |sps| ==>
           && sps[j].lo + 2 <= sps[j].hi <= |pts|
           && segs[j].points == pts[sps[j].lo..sps[j].hi]
           && DrawsPolyline(segs[j].path, segs[j].points)
           && segs[j].dur == totalDuration
  {
    LoopSpansShape(|pts|, k);
  }

  /** Each kept span is the slice of its own non-empty window `w`, from
      `floor(w * n / k)` to one past `floor((w + 1) * n / k)`, clamped at
      the end of the points, and windows come in increasing order. */
  lemma LoopSpansFromWindows(n: nat, k: nat)
    requires k > 0
    ensures var sps := LoopSpans(n, k);
      forall j :: 0 <= j < |sps| ==>
        && sps[j].w < k
        && sps[j].lo == sps[j].w * n / k < (sps[j].w + 1) * n / k
        && sps[j].hi == Min((sps[j].w + 1) * n / k + 1, n)
    ensures var sps := LoopSpans(n, k);
      forall j, j' :: 0 <= j && j' == j + 1 < |sps| ==> sps[j].w < sps[j'].w
  {
    var b := Bounds(n, k);
    BoundsPartition(n, k);
    SpansCover(b, n);
    var sps := LoopSpans(n, k);
    forall j | 0 <= j < |sps|
      ensures sps[j].w < k
      ensures sps[j].lo == sps[j].w * n / k < (sps[j].w + 1) * n / k
      ensures sps[j].hi == Min((sps[j].w + 1) * n / k + 1, n)
    {
      assert FromWindow(sps[j], b, n);
      assert sps[j].lo + 2 <= sps[j].hi <= n;
    }
  }

  /** The last point of each segment is the first point of the next, so the
      next one becomes visible at the key time where the previous one
      finishes; the first segment starts at the first valid point and the
      last one ends at the last valid point. Key times are compared as
      emitted values, as in `ChainSharesOnePoint`. */
  lemma SegmentsShareOnePoint(pts: seq<Point>, k: nat, startTime: real, totalDuration: real)
    requires k > 0
    ensures var segs := Segments(pts, k, startTime, totalDuration);
      && (forall j, j' :: 0 <= j && j' == j + 1 < |segs| ==>
            |segs[j].points| > 0 && |segs[j'].points| > 0 &&
            Last(segs[j].points) == segs[j'].points[0] && segs[j'].t1 == segs[j].t2)
      && (segs != [] ==> |pts| >= 2 && segs[0].points != [] && segs[0].points[0] == pts[0]
                         && segs[|segs| - 1].points != [] && Last(segs[|segs| - 1].points) == Last(pts))
  {
    var n := |pts|;
    LoopSpansShape(n, k);
    var sps := LoopSpans(n, k);
    ChainSharesOnePoint(pts, sps, startTime, totalDuration);
    if sps != [] {
      ChainEnds(pts, sps, startTime, totalDuration);
    }
  }

  /** Joining the segments while dropping each shared point gives back the
      valid points exactly; no segment is emitted for fewer than two. */
  lemma SegmentsReassemble(pts: seq<Point>, k: nat, startTime: real, totalDuration: real)
    requires k > 0
    ensures var segs := Segments(pts, k, startTime, totalDuration);
      && (segs == [] <==> |pts| < 2)
      && (|pts| >= 2 ==> Stitch(PointsOf(segs)) == pts)
  {
    var n := |pts|;
    LoopSpansShape(n, k);
    var sps := LoopSpans(|pts|, k);
    if n >= 2 {
      StitchSlices(pts, sps);
      assert PointsOf(Segments(pts, k, startTime, totalDuration)) == Slices(pts, sps);
      assert pts[0..n] == pts;
    }
  }

  /** With time-ordered points and a positive total duration every key time
      is a finite number, `0 <= t1 <= t2 <= 1` for every segment, and the
      segments become visible in emission order (`t1` never decreases). */
  lemma KeyTimesInUnit(pts: seq<Point>, k: nat, totalDuration: real)
    requires k > 0 && |pts| > 0 && TimeOrdered(pts)
    requires totalDuration == (Last(pts).time - pts[0].time) / 1000.0 && totalDuration > 0.0
    ensures var segs := Segments(pts, k, pts[0].time, totalDuration);
      && (forall j :: 0 <= j < |segs| ==>
            && segs[j].t1.Finite? && segs[j].t2.Finite?
            && 0.0 <= segs[j].t1.value <= segs[j].t2.value <= 1.0)
      && (forall i, j :: 0 <= i <= j < |segs| ==>
            segs[i].t1.Finite? && segs[j].t1.Finite? && segs[i].t1.value <= segs[j].t1.value)
  {
    var n := |pts|;
    LoopSpansShape(n, k);
    var sps := LoopSpans(|pts|, k);
    var segs := SegmentsOf(pts, sps, pts[0].time, totalDuration);
    forall j | 0 <= j < |segs|
      ensures segs[j].t1.Finite? && segs[j].t2.Finite?
      ensures 0.0 <= segs[j].t1.value <= segs[j].t2.value <= 1.0
    {
      KeyTimeOfIndex(pts, sps[j].lo, sps[j].hi - 1, totalDuration);
    }
    forall i, j | 0 <= i <= j < |segs|
      ensures segs[i].t1.Finite? && segs[j].t1.Finite? && segs[i].t1.value <= segs[j].t1.value
    {
      if i < j {
        LinkedStartsIncrease(sps, n, i, j);
      }
      KeyTimeOfIndex(pts, sps[i].lo, sps[j].lo, totalDuration);
    }
  }

  /** The creator page does not guard a zero duration: when there are at
      least two valid points and all of them share one timestamp, every key
      time is `0 / 0`, which is NaN. */
  lemma ZeroDurationKeyTimesNaN(pts: seq<Point>, k: nat, totalDuration: real)
    requires k > 0 && |pts| >= 2
    requires forall j :: 0 <= j < |pts| ==> pts[j].time == pts[0].time
    requires totalDuration == (Last(pts).time - pts[0].time) / 1000.0
    ensures var segs := Segments(pts, k, pts[0].time, totalDuration);
      && segs != []
      && forall j :: 0 <= j < |segs| ==> segs[j].t1 == NaN && segs[j].t2 == NaN
  {
    var n := |pts|;
    LoopSpansShape(n, k);
  }
}
