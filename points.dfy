/** The capture buffer's contents: sampled points, the `null` stroke
    separators between them, and the selections `generateSVG` makes over
    the buffer (`filter`, `find`, and `find` over a reversed copy). */
module Points {

  datatype Option<T> = None | Some(value: T)

  /** A sampled pointer position: canvas coordinates and a timestamp in
      milliseconds on the session clock. */
  datatype Point = Point(x: real, y: real, time: real)

  /** One slot of the capture buffer: a sampled point, or the stroke
      separator that the buffer stores as `null`. */
  datatype Entry = Separator | Sample(point: Point)

  /** The buffer's points in order, separators removed (`filter(p => p !== null)`). */
  function Samples(s: seq<Entry>): (r: seq<Point>)
    ensures |r| <= |s|
    ensures forall p :: p in r <==> Sample(p) in s
  {
    if s == [] then []
    else (if s[0].Sample? then [s[0].point] else []) + Samples(s[1..])
  }

  /** `find(p => p !== null)`: the first entry that is not a separator. */
  function FirstSample(s: seq<Entry>): (r: Option<Point>)
    ensures r == if Samples(s) == [] then None else Some(Samples(s)[0])
  {
    if s == [] then None
    else if s[0].Sample? then Some(s[0].point)
    else FirstSample(s[1..])
  }

  /** `slice().reverse()`: the sequence read back to front. */
  function Reverse<T>(s: seq<T>): (r: seq<T>)
    ensures |r| == |s|
    ensures forall i :: 0 <= i < |s| ==> r[i] == s[|s| - 1 - i]
  {
    if s == [] then [] else Reverse(s[1..]) + [s[0]]
  }

  /** `slice().reverse().find(p => p !== null)`: the last entry that is not
      a separator, which is the last point that the filter keeps. */
  function LastSample(s: seq<Entry>): (r: Option<Point>)
    ensures r == if Samples(s) == [] then None else Some(Samples(s)[|Samples(s)| - 1])
  {
    SamplesReverse(s);
    FirstSample(Reverse(s))
  }

  /** Filtering distributes over concatenation. */
  lemma {:induction false} SamplesConcat(a: seq<Entry>, b: seq<Entry>)
    ensures Samples(a + b) == Samples(a) + Samples(b)
  {
    if a == [] {
      assert a + b == b;
    } else {
      assert (a + b)[1..] == a[1..] + b;
      SamplesConcat(a[1..], b);
    }
  }

  /** Filtering commutes with reversal. */
  lemma {:induction false} SamplesReverse(s: seq<Entry>)
    ensures Samples(Reverse(s)) == Reverse(Samples(s))
  {
    if s != [] {
      SamplesReverse(s[1..]);
      SamplesConcat(Reverse(s[1..]), [s[0]]);
      assert Samples([s[0]]) == if s[0].Sample? then [s[0].point] else [] by {
        assert [s[0]][1..] == [];
      }
    }
  }
}
