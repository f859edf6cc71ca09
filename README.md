# PSB signature creator — a Dafny model

`psb-creator.js` is the signature creator page of PSB, the Performance
Signature format. It records what the user draws into a capture buffer of timed
points. Each stroke is closed with a `null` separator. On request the page turns the
buffer into an animated SVG. The valid points are cut into `SEGMENT_COUNT` =
100 index windows. Each window that holds at least two points becomes one
`<path>` with a visibility `<animate>`, which is hidden until the key time `t1`
of its first point. Consecutive paths share one point, so the drawing
unfolds without gaps.

The model has five modules:

- `Points` (`points.dfy`) holds the buffer's entries: a timed `Point`, or the
  stroke `Separator` that the page stores as `null`. It also holds the selections
  `generateSVG` makes: `filter`, `find`, and `find` over a reversed copy.
- `Windows` (`windows.dfy`) holds the index arithmetic of the segment loop.
  The window bounds `floor(i * n / k)` form a partition of `0 .. n`.
  The windows the loop keeps form a *linked chain* of index ranges: each
  range holds at least two points, and each starts at the last index of the
  one before it.
- `Encoder` (`encoder.dfy`) holds `generateSVG` as methods with its two loops, the
  window loop and the `pathD` loop. They are proved against the functions
  `Segments` and `PathOf`. Key times are JavaScript numbers (`Num`), so a
  division by a zero duration gives `NaN` or an infinity, as in the page.
- `SegmentProperties` (`properties.dfy`) holds what the emitted segments
  guarantee:
  - they are slices of their own windows;
  - consecutive segments share exactly one point;
  - joined back together, they give the valid points;
  - with time-ordered points and a positive duration, the key times lie in
    `[0, 1]` and are ordered.
- `Capture` (`capture.dfy`) holds the page's module-level state as a class
  `Session`. It has one method per handler (`pointerdown`, `pointermove`,
  `pointerup`) and one for the generate button. Each method keeps the buffer
  free of a leading separator and of adjacent separators.

`SEGMENT_COUNT` is generalised to any positive window count `k`. The page
itself uses `Encoder.SEGMENT_COUNT` (100), in `Capture.Session.Generate`.

The model follows the code as written: a fixed count of 100 windows, and
no guard against a zero total duration.
`SegmentProperties.ZeroDurationKeyTimesNaN` shows what the page then does
when there are at least two valid points and all of them share one
timestamp: every key time is `NaN`.

## Model

| member | source | states |
|---|---|---|
| `Points.Samples` | psb-creator.js:66 | the filtered buffer is no longer than the buffer and holds exactly the points that the buffer holds as samples |
| `Points.FirstSample` | psb-creator.js:72 | `find(p => p !== null)` yields nothing exactly when the filter is empty, otherwise the filter's first point |
| `Points.Reverse` | psb-creator.js:73 | `slice().reverse()` has the same length and holds element `i` at position `len - 1 - i` |
| `Points.SamplesConcat` | psb-creator.js:66 | filtering the concatenation of two buffers is the concatenation of their filters |
| `Points.SamplesReverse` | psb-creator.js:73 | filtering a reversed buffer gives the reversed filter |
| `Points.LastSample` | psb-creator.js:73-74 | reverse-then-find yields nothing for an empty filter, otherwise the filter's last point, which supplies `endTime` |
| `Windows.Bounds` | psb-creator.js:94-96 | there are `k + 1` window bounds `floor(i * n / k)`, and window `i` runs from bound `i` to bound `i + 1` |
| `Windows.KeptSurvives` | psb-creator.js:97-100 | a window from `s` to `e` survives both `continue`s exactly when it is non-empty and at least two points remain from its start; its span then starts at `s`, holds at least two points, and ends one past `e` or at the end of the points |
| `Windows.BoundsPartition` | psb-creator.js:95-96 | the bounds start at 0, never decrease in `i`, and the last one, `floor(k * n / k)`, is `n` |
| `Windows.StepReached` | psb-creator.js:94-100 | one pass of the loop body over a non-decreasing bound pair keeps the loop state: the chain stays linked, and each span is its own window's slice |
| `Windows.SpansInvariant` | psb-creator.js:94-100 | before window `i`, the kept spans form a linked chain of window slices below `i`, from index 0 to one past the current start bound, or there are none |
| `Windows.SpansCover` | psb-creator.js:94-100 | after the loop, the kept spans are linked window slices from 0 to `n`, at most one per window, and some exist exactly when `n >= 2` |
| `Windows.LinkedStartsIncrease` | psb-creator.js:94-99 | along a linked chain the start indices strictly increase |
| `Encoder.Divide` | psb-creator.js:116-117 | JavaScript division: finite exactly when the divisor is non-zero, and then the quotient times the divisor gives back the dividend; `0 / 0` is `NaN`, and a non-zero value over zero is the infinity of its sign |
| `Encoder.KeyTime` | psb-creator.js:116-117 | a key time is finite exactly when the total duration is non-zero, and is then the fraction of the total duration (in seconds) elapsed since `startTime`; with no duration it is `NaN` exactly at `startTime` |
| `Encoder.PathOf` | psb-creator.js:102-105 | the path data has one command per point with that point's coordinates, a move for the first point and a line for every later one |
| `Encoder.PathDataUnique` | psb-creator.js:102-105 | two path data that both draw the same polyline are equal |
| `Encoder.BuildPath` | psb-creator.js:102-105 | the `pathD` loop builds exactly the polyline path data of the segment's points |
| `Encoder.MakeSegment` | psb-creator.js:99-122 | the segment of a span holds exactly the span's slice of points, draws them, takes `t1` and `t2` from the key times of the slice's first and last point, and carries the total duration |
| `Encoder.SegmentsOf` | psb-creator.js:107-125 | one segment per kept span, in order |
| `Encoder.LoopSpansShape` | psb-creator.js:94-100 | the loop over `k` windows keeps a linked chain of at most `k` spans from index 0 to `n`, and keeps some exactly when `n >= 2` |
| `Encoder.Segments` | psb-creator.js:94-126 | the loop over `k` windows emits at most `k` segments, and emits some exactly when there are at least two valid points |
| `Encoder.EncodeSegments` | psb-creator.js:94-126 | the window loop, with its two `continue`s and `slice(startIdx, endIdx + 1)`, emits exactly the segments of the kept windows, with `t1` and `t2` from the first and last point of each |
| `Encoder.SegmentsStep` | psb-creator.js:95-123 | one pass of the loop body adds the segment of window `i` when the window is non-empty and its clamped slice holds two points, and adds nothing otherwise |
| `Encoder.Encode` | psb-creator.js:65-126 | no output exactly when fewer than two valid points exist; otherwise a 600 by 300 animation whose duration in seconds runs from the first to the last valid point, with the segments of the valid points |
| `SegmentProperties.LinkedPrefix` | psb-creator.js:94-100 | every prefix of a linked chain is linked |
| `SegmentProperties.StitchSnoc` | psb-creator.js:99 | stitching one more part appends all of it but the shared first point |
| `SegmentProperties.StitchSlices` | psb-creator.js:99 | stitching the slices of a linked chain gives the points from the chain's first index to its last |
| `SegmentProperties.ChainSharesOnePoint` | psb-creator.js:99-117 | in a linked chain, each segment's last point is the next segment's first point, so the next `t1` equals the previous `t2` |
| `SegmentProperties.ChainEnds` | psb-creator.js:99 | a chain from index 0 to the end starts at the first valid point and ends at the last |
| `SegmentProperties.RatioInUnit` | psb-creator.js:116-117 | offsets `0 <= a <= c <= d` over a positive `d` give ratios `0 <= a/d <= c/d <= 1` |
| `SegmentProperties.KeyTimeOfIndex` | psb-creator.js:75 | for time-ordered points and a positive duration from the first to the last point, the key time of a point is finite, lies in `[0, 1]` and grows with the index |
| `SegmentProperties.SegmentsAreSlices` | psb-creator.js:97-122 | at most `k` segments are emitted; each is the contiguous slice of the valid points its span selects, holds at least two points, draws exactly them and carries the total duration |
| `SegmentProperties.LoopSpansFromWindows` | psb-creator.js:95-100 | each kept span belongs to a non-empty window `w < k`, runs from `floor(w*n/k)` to `min(floor((w+1)*n/k), n - 1)` inclusive, and windows increase along the segments |
| `SegmentProperties.SegmentsShareOnePoint` | psb-creator.js:94-117 | each segment's last point is the next segment's first point, and the next `t1` equals the previous `t2`; the first segment starts at the first valid point, the last ends at the last |
| `SegmentProperties.SegmentsReassemble` | psb-creator.js:94-100 | no segment is emitted exactly when fewer than two points exist; otherwise joining the segments and dropping each shared point gives back the valid points exactly |
| `SegmentProperties.KeyTimesInUnit` | psb-creator.js:114-117 | with time-ordered points and a positive duration, every `t1` and `t2` is finite with `0 <= t1 <= t2 <= 1`, and `t1` never decreases along the segments |
| `SegmentProperties.ZeroDurationKeyTimesNaN` | psb-creator.js:75-117 | when there are at least two valid points and all of them share one timestamp, segments are emitted and every `t1` and `t2` is `NaN` |
| `Capture.WellSeparated` | psb-creator.js:44-50 | the handlers' buffer invariant: a well-separated buffer never begins with a separator, and a separator is always followed by a point |
| `Capture.CloseStroke` | psb-creator.js:47-49 | the buffer after `pointerup` keeps the old buffer as its prefix, grows by one entry exactly when the old buffer was non-empty and ended in a point, and a non-empty result ends in a separator |
| `Capture.AppendSample` | psb-creator.js:27 | recording a point keeps the buffer well separated and adds exactly that point to the filtered points |
| `Capture.CloseStrokeSeparates` | psb-creator.js:46-49 | closing a stroke keeps the buffer well separated and its filtered points unchanged |
| `Capture.Session.constructor` | psb-creator.js:11-14 | the page starts not drawing, with a new signature pending and an empty buffer |
| `Capture.Session.PointerDown` | psb-creator.js:17-34 | the buffer is cleared first exactly when a new signature is pending, then gets exactly the one point; drawing starts and the pending flag is cleared; the buffer stays well separated |
| `Capture.Session.PointerMove` | psb-creator.js:36-42 | while drawing, exactly the one point is appended; otherwise nothing changes; the buffer stays well separated |
| `Capture.Session.PointerUp` | psb-creator.js:44-50 | drawing stops; a separator is appended exactly when the buffer is non-empty and does not end in one; the filtered points are unchanged |
| `Capture.Session.Generate` | psb-creator.js:65-75 | with fewer than two valid points there is no output and the pending flag keeps its value; otherwise the flag is set and the output is the encoding of the buffer with 100 windows |

## Left out

- The DOM is not modelled. This covers `createElementNS`, `setAttribute`, `appendChild`, `innerHTML`, the live preview `<path>` (`currentPathElement`) and `XMLSerializer`. Segments and the animation are plain records, and the constant attributes (stroke colours, `values`, `fill="freeze"`) are not represented.
- Event-listener registration, `alert` and the enabling of the download button are UI plumbing and are not modelled.
- `getPoint`, `performance.now()` and `getBoundingClientRect` are browser inputs. The handlers take the point as a parameter.
- `downloadSVG` is file I/O through `Blob` and an anchor click, and is not modelled.
- `beautifyXML` is a cosmetic regex-based pretty printer over the serialised text, and is not modelled.
- `toFixed` rounding of coordinates, key times and durations is not modelled. Numbers are `real`, so IEEE rounding is not modelled either. Key times keep JavaScript's `NaN` and infinities for a zero divisor (`Encoder.Num`).
- `SegmentProperties.KeyTimesInUnit` requires time-ordered points and a positive total duration. Time order rests on the browser clock (`performance.now()`, read at line 57) being monotonic and on the handlers running in event order; the clock is not modelled. A positive duration is not guarded at all (lines 75 and 116-117), and `SegmentProperties.ZeroDurationKeyTimesNaN` covers the zero case.
