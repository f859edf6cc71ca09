/** The creator page's capture state and its event handlers: `pointerdown`,
    `pointermove` and `pointerup` record strokes into the capture buffer,
    and the generate button turns the buffer into an animation and marks the
    signature as finished, so that the next `pointerdown` starts a new one. */
module Capture {
  import opened Points
  import opened Encoder

  /** The buffer's shape the handlers keep: it never begins with a stroke
      separator and never holds two separators side by side. */
  predicate WellSeparated(s: seq<Entry>)
    ensures WellSeparated(s) ==> s == [] || s[0].Sample?
    ensures WellSeparated(s) ==> forall i :: 0 <= i < |s| - 1 && s[i].Separator? ==> s[i + 1].Sample?
  {
    forall i :: 0 <= i < |s| && s[i].Separator? ==> i > 0 && s[i - 1].Sample?
  }

  /** The buffer after `pointerup`: a separator is added only after a
      non-empty buffer that does not already end in one. */
  function CloseStroke(s: seq<Entry>): (c: seq<Entry>)
    ensures |s| <= |c| <= |s| + 1 && c[..|s|] == s
    ensures |c| == |s| + 1 <==> |s| > 0 && s[|s| - 1].Sample?
    ensures c != [] ==> c[|c| - 1] == Separator
  {
    if |s| > 0 && s[|s| - 1] != Separator then s + [Separator] else s
  }

  /** Recording a point keeps the buffer well separated and adds exactly
      that point to its samples. */
  lemma AppendSample(s: seq<Entry>, p: Point)
    requires WellSeparated(s)
    ensures WellSeparated(s + [Sample(p)])
    ensures Samples(s + [Sample(p)]) == Samples(s) + [p]
  {
    SamplesConcat(s, [Sample(p)]);
    assert Samples([Sample(p)]) == [p] by {
      assert [Sample(p)][1..] == [];
    }
  }

  /** Closing a stroke keeps the buffer well separated and leaves its
      samples as they were. */
  lemma CloseStrokeSeparates(s: seq<Entry>)
    requires WellSeparated(s)
    ensures WellSeparated(CloseStroke(s))
    ensures Samples(CloseStroke(s)) == Samples(s)
  {
    var c := CloseStroke(s);
    if c != s {
      SamplesConcat(s, [Separator]);
      assert Samples([Separator]) == [] by {
        assert [Separator][1..] == [];
      }
    }
    assert c[..|s|] == s;
  }

  /** The page's module-level capture state. */
  class Session {
    var isDrawing: bool
    var isNewSignature: bool
    var allPoints: seq<Entry>

    ghost predicate Valid()
      reads this
    {
      WellSeparated(allPoints)
    }

    /** The state when the page loads. */
    constructor()
      ensures Valid()
      ensures !isDrawing && isNewSignature && allPoints == []
    {
      isDrawing := false;
      isNewSignature := true;
      allPoints := [];
    }

    /** `pointerdown`: a finished signature is discarded first, then the
        stroke starts with its first point. */
    method PointerDown(p: Point)
      requires Valid()
      modifies this
      ensures Valid()
      ensures allPoints == (if old(isNewSignature) then [] else old(allPoints)) + [Sample(p)]
      ensures Samples(allPoints) == (if old(isNewSignature) then [] else Samples(old(allPoints))) + [p]
      ensures isDrawing && !isNewSignature
    {
      if isNewSignature {
        allPoints := [];
        isNewSignature := false;
      }
      isDrawing := true;
      AppendSample(allPoints, p);
      allPoints := allPoints + [Sample(p)];
    }

    /** `pointermove`: the point is recorded only while a stroke is drawn. */
    method PointerMove(p: Point)
      requires Valid()
      modifies this`allPoints
      ensures Valid()
      ensures allPoints == if old(isDrawing) then old(allPoints) + [Sample(p)] else old(allPoints)
      ensures Samples(allPoints) == if old(isDrawing) then Samples(old(allPoints)) + [p] else Samples(old(allPoints))
    {
      if !isDrawing {
        return;
      }
      AppendSample(allPoints, p);
      allPoints := allPoints + [Sample(p)];
    }

    /** `pointerup`: the stroke ends and is closed with a separator. */
    method PointerUp()
      requires Valid()
      modifies this`isDrawing, this`allPoints
      ensures Valid()
      ensures !isDrawing
      ensures allPoints == CloseStroke(old(allPoints))
      ensures Samples(allPoints) == Samples(old(allPoints))
    {
      isDrawing := false;
      CloseStrokeSeparates(allPoints);
      if |allPoints| > 0 && allPoints[|allPoints| - 1] != Separator {
        allPoints := allPoints + [Separator];
      }
    }

    /** The generate button: with fewer than two recorded points nothing is
        produced and nothing changes; otherwise the buffer is encoded with
        `SEGMENT_COUNT` windows and the signature is marked finished. */
    method Generate() returns (doc: Option<Animation>)
      requires Valid()
      modifies this`isNewSignature
      ensures Valid()
      ensures doc.None? <==> |Samples(allPoints)| < 2
      ensures isNewSignature == (doc.Some? || old(isNewSignature))
      ensures doc.Some? ==>
        var pts := Samples(allPoints);
        && doc.value.width == WIDTH && doc.value.height == HEIGHT
        && doc.value.totalDuration == (pts[|pts| - 1].time - pts[0].time) / 1000.0
        && doc.value.segments == Segments(pts, SEGMENT_COUNT, pts[0].time, doc.value.totalDuration)
    {
      doc := Encode(allPoints, SEGMENT_COUNT);
      if doc.Some? {
        isNewSignature := true;
      }
    }
  }
}
