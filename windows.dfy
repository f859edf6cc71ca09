/** The index arithmetic of `generateSVG`'s segment loop: window `i` of `k`
    over `n` valid points runs from `floor(i * n / k)` to
    `floor((i + 1) * n / k)`, is sliced with one extra point (clamped at the
    end of the points), and is kept only when it is non-empty and its slice
    holds at least two points. */
module Windows {

  function Min(a: int, b: int): int { if a <= b then a else b }

  /** The `k + 1` window bounds `floor(i * n / k)`, `0 <= i <= k`: window `i`
      runs from bound `i` (`startIdx`) to bound `i + 1` (`endIdx`). */
  function Bounds(n: nat, k: nat): (b: seq<nat>)
    requires k > 0
    ensures |b| == k + 1
  {
    seq(k + 1, i requires 0 <= i <= k => i * n / k)
  }

  /** Bounds that start at 0, never decrease, and end at `n`. */
  predicate Partition(b: seq<nat>, n: nat)
  {
    && |b| > 0
    && b[0] == 0
    && b[|b| - 1] == n
    && forall i, j :: 0 <= i <= j < |b| ==> b[i] <= b[j]
  }

  /** A kept window: its number `w` and the half-open index range
      `[lo, hi)` that `slice(startIdx, endIdx + 1)` selects. */
  datatype Span = Span(w: nat, lo: nat, hi: nat)

  /** What one pass of the loop body adds for window `w`, which runs from
      `s` to `e`: nothing when the window is empty (`startIdx >= endIdx`) or
      its slice, clamped at the end of the `n` points, holds fewer than two
      points. */
  function Kept(w: nat, s: nat, e: nat, n: nat): seq<Span>
  {
    var hi := Min(e + 1, n);
    if s >= e || hi < s + 2 then [] else [Span(w, s, hi)]
  }

  /** A window survives both `continue`s exactly when it is non-empty and at
      least two points remain from its start; its span then starts at the
      window's start, holds at least two points, and ends one past the
      window's end or at the end of the points. */
  lemma KeptSurvives(w: nat, s: nat, e: nat, n: nat)
    ensures var r := Kept(w, s, e, n);
      && |r| <= 1
      && (r != [] <==> s < e && s + 2 <= n)
      && (r != [] ==> r[0].w == w && r[0].lo == s && r[0].lo + 2 <= r[0].hi <= n)
      && (r != [] ==> r[0].hi == e + 1 || r[0].hi == n)
  {
  }

  /** The spans of the windows `0 .. i - 1` that survive both `continue`s of
      the loop, in loop order. */
  function Spans(b: seq<nat>, n: nat, i: nat): seq<Span>
    requires i < |b|
  {
    if i == 0 then [] else Spans(b, n, i - 1) + Kept(i - 1, b[i - 1], b[i], n)
  }

  /** Span `sp` is the slice of window `sp.w`: from its start bound up to one
      past its end bound, clamped at `n`. */
  predicate FromWindow(sp: Span, b: seq<nat>, n: nat)
  {
    && sp.w + 1 < |b|
    && sp.lo == b[sp.w]
    && sp.hi == Min(b[sp.w + 1] + 1, n)
  }

  /** Spans that each select at least two of `n` points. */
  predicate InRange(sps: seq<Span>, n: nat)
  {
    forall j :: 0 <= j < |sps| ==> sps[j].lo + 2 <= sps[j].hi <= n
  }

  /** Every span holds at least two of the `n` points; window numbers
      strictly increase; each span begins at the last index of the one
      before it. */
  predicate Linked(sps: seq<Span>, n: nat)
  {
    && (forall j :: 0 <= j < |sps| ==> sps[j].lo + 2 <= sps[j].hi <= n)
    && (forall j, j' :: 0 <= j && j' == j + 1 < |sps| ==> sps[j].w < sps[j'].w && sps[j].hi == sps[j'].lo + 1)
  }

  /** The state of the loop before window `i`, whose start bound is `f`:
      the spans so far are linked slices of their own windows, all below
      `i`, start at index 0 and end one past `f` (or at `n`); no span at all
      means that no point was passed yet or that fewer than two exist. */
  predicate Reached(sps: seq<Span>, b: seq<nat>, n: nat, i: nat, f: nat)
  {
    && Linked(sps, n)
    && |sps| <= i
    && (forall j :: 0 <= j < |sps| ==> sps[j].w < i && FromWindow(sps[j], b, n))
    && (sps == [] ==> f == 0 || n < 2)
    && (sps != [] ==> sps[0].lo == 0 && sps[|sps| - 1].hi == Min(f + 1, n))
  }

  /** One pass of the loop body keeps the loop state: a window that starts
      where the previous one ended extends the chain by exactly its slice,
      or leaves it as it was. The two cases are proved apart, in `StepSkip`
      and `StepKeep`, so that each proof stays small for the solver. */
  lemma StepReached(sps: seq<Span>, b: seq<nat>, n: nat, i: nat)
    requires i + 1 < |b| && b[i] <= b[i + 1] <= n
    requires Reached(sps, b, n, i, b[i])
    ensures Reached(sps + Kept(i, b[i], b[i + 1], n), b, n, i + 1, b[i + 1])
  {
    var s, e := b[i], b[i + 1];
    var hi := Min(e + 1, n);
    if s >= e || hi < s + 2 {
      assert sps + Kept(i, s, e, n) == sps;
      StepSkip(sps, b, n, i);
    } else {
      StepKeep(sps, b, n, i);
    }
  }

  /** A skipped window: either it is empty, or it is the last point alone. */
  lemma StepSkip(sps: seq<Span>, b: seq<nat>, n: nat, i: nat)
    requires i + 1 < |b| && b[i] <= b[i + 1] <= n
    requires b[i] >= b[i + 1] || Min(b[i + 1] + 1, n) < b[i] + 2
    requires Reached(sps, b, n, i, b[i])
    ensures Reached(sps, b, n, i + 1, b[i + 1])
  {
    assert sps != [] ==> sps[|sps| - 1].hi == Min(b[i + 1] + 1, n);
  }

  /** A kept window appends its slice, which starts where the chain ends. */
  lemma StepKeep(sps: seq<Span>, b: seq<nat>, n: nat, i: nat)
    requires i + 1 < |b| && b[i] <= b[i + 1] <= n
    requires b[i] < b[i + 1] && Min(b[i + 1] + 1, n) >= b[i] + 2
    requires Reached(sps, b, n, i, b[i])
    ensures Reached(sps + [Span(i, b[i], Min(b[i + 1] + 1, n))], b, n, i + 1, b[i + 1])
  {
    var next := sps + [Span(i, b[i], Min(b[i + 1] + 1, n))];
    assert sps != [] ==> sps[|sps| - 1].hi == b[i] + 1;
    assert Linked(next, n) by {
      forall j, j' | 0 <= j && j' == j + 1 < |next|
        ensures next[j].w < next[j'].w && next[j].hi == next[j'].lo + 1
      {
        if j == |sps| - 1 {
          assert next[j] == sps[|sps| - 1];
        }
      }
    }
    forall j | 0 <= j < |next|
      ensures next[j].w < i + 1 && FromWindow(next[j], b, n)
    {
      if j < |sps| {
        assert next[j] == sps[j];
      }
    }
  }

  /** The loop state after window `i - 1`, for any partition of `n`. */
  lemma {:induction false} SpansInvariant(b: seq<nat>, n: nat, i: nat)
    requires Partition(b, n) && i < |b|
    ensures Reached(Spans(b, n, i), b, n, i, b[i])
  {
    if i > 0 {
      SpansInvariant(b, n, i - 1);
      StepReached(Spans(b, n, i - 1), b, n, i - 1);
    }
  }

  /** After the whole loop: the kept spans are linked slices of their own
      windows, run from index 0 to `n`, number at most one per window, and
      exist exactly when at least two points do. */
  lemma SpansCover(b: seq<nat>, n: nat)
    requires Partition(b, n)
    ensures var sps := Spans(b, n, |b| - 1);
      && Linked(sps, n)
      && |sps| <= |b| - 1
      && (forall j :: 0 <= j < |sps| ==> FromWindow(sps[j], b, n))
      && (sps != [] <==> n >= 2)
      && (sps != [] ==> sps[0].lo == 0 && sps[|sps| - 1].hi == n)
  {
    var sps := Spans(b, n, |b| - 1);
    SpansInvariant(b, n, |b| - 1);
    assert b[|b| - 1] == n && Min(n + 1, n) == n;
    if sps != [] {
      assert sps[0].lo + 2 <= sps[0].hi <= n;
    }
  }

  /** Along a linked chain the start indices strictly increase. */
  lemma {:induction false} LinkedStartsIncrease(sps: seq<Span>, n: nat, i: nat, j: nat)
    requires Linked(sps, n) && i < j < |sps|
    ensures sps[i].lo < sps[j].lo
    decreases j - i
  {
    assert sps[i].hi == sps[i + 1].lo + 1;
    if i + 1 < j {
      LinkedStartsIncrease(sps, n, i + 1, j);
    }
  }

  lemma MulAtLeast(d: int, k: int)
    requires d >= 1 && k > 0
    ensures k * d >= k
  {}

  /** Euclidean division has one quotient. */
  lemma DivUnique(a: int, k: int, q: int, r: int)
    requires k > 0 && 0 <= r < k && a == k * q + r
    ensures a / k == q
  {
    var q0, r0 := a / k, a % k;
    assert k * (q - q0) == r0 - r by {
      assert k * q - k * q0 == k * (q - q0);
    }
    if q - q0 >= 1 {
      MulAtLeast(q - q0, k);
      assert false;
    } else if q0 - q >= 1 {
      MulAtLeast(q0 - q, k);
      assert false;
    }
  }

  lemma DivMonotone(a: nat, b: nat, k: nat)
    requires a <= b && k > 0
    ensures a / k <= b / k
  {
    var qa, qb := a / k, b / k;
    if qa > qb {
      MulAtLeast(qa - qb, k);
      assert false;
    }
  }

  lemma MulMonotone(a: nat, b: nat, c: nat)
    requires a <= b
    ensures a * c <= b * c
  {}

  /** The loop's bounds `floor(i * n / k)` start at 0, never decrease with
      `i`, and the last one, `floor(k * n / k)`, is `n`. */
  lemma BoundsPartition(n: nat, k: nat)
    requires k > 0
    ensures Partition(Bounds(n, k), n)
  {
    var b := Bounds(n, k);
    DivUnique(k * n, k, n, 0);
    forall i, j | 0 <= i <= j < |b|
      ensures b[i] <= b[j]
    {
      MulMonotone(i, j, n);
      DivMonotone(i * n, j * n, k);
    }
  }
}
