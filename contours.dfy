/** The integer front end of `m_rasterize_truetype_glyph`: the shift that
    makes the glyph's coordinates non-negative, and the walk over each
    contour that turns on- and off-curve points into the line and quadratic
    segments handed to `calculate_segment_path`.  Two consecutive
    off-curve points imply an on-curve point halfway between them (the
    "phantom point"), as the TrueType `glyf` simple glyph description
    prescribes. */
module Contours {
  import opened Util
  import opened FontTypes
  import opened TrueType
  import opened Faces
  import opened Fixed26

  // ---------------------------------------------------------------------
  // The negative-minimum shift

  /** The glyph with one axis moved so that its minimum is 0 when it was
      negative: every coordinate and the maximum gain `-min`, in int16
      arithmetic. */
  function Shifted(g: TruetypeGlyph): (h: TruetypeGlyph)
  {
    var gx := if g.xMin < 0
      then g.(xCoords := Translate(g.xCoords, -(g.xMin as int)), xMax := I16(g.xMax - g.xMin), xMin := 0)
      else g;
    if gx.yMin < 0
    then gx.(yCoords := Translate(gx.yCoords, -(gx.yMin as int)), yMax := I16(gx.yMax - gx.yMin), yMin := 0)
    else gx
  }

  /** Every coordinate lies between the glyph's bounding box limits and the
      box spans less than 2^15 units on each axis. */
  predicate BoxBounds(g: TruetypeGlyph)
  {
    g.xMin <= g.xMax && g.yMin <= g.yMax
    && g.xMax - g.xMin < 0x8000 && g.yMax - g.yMin < 0x8000
    && (forall k :: 0 <= k < |g.xCoords| ==> g.xMin <= g.xCoords[k] <= g.xMax)
    && (forall k :: 0 <= k < |g.yCoords| ==> g.yMin <= g.yCoords[k] <= g.yMax)
  }

  /** When the box holds the points, the shift leaves every coordinate
      non-negative, keeps every difference between two points, and touches
      nothing but the coordinates and the box. */
  lemma ShiftedIsNonNegative(g: TruetypeGlyph)
    requires BoxBounds(g)
    ensures var h := Shifted(g);
      h.xMin >= 0 && h.yMin >= 0 && BoxBounds(h)
      && |h.xCoords| == |g.xCoords| && |h.yCoords| == |g.yCoords|
      && (forall k :: 0 <= k < |h.xCoords| ==> h.xCoords[k] >= 0 && h.xCoords[k] as int - g.xCoords[k] as int == h.xMin as int - g.xMin as int)
      && (forall k :: 0 <= k < |h.yCoords| ==> h.yCoords[k] >= 0 && h.yCoords[k] as int - g.yCoords[k] as int == h.yMin as int - g.yMin as int)
      && h.(xCoords := g.xCoords, yCoords := g.yCoords, xMin := g.xMin, xMax := g.xMax, yMin := g.yMin, yMax := g.yMax) == g
  {
  }

  /** The two shift loops at the top of `m_rasterize_truetype_glyph`. */
  method ShiftToNonNegative(g: TruetypeGlyph) returns (h: TruetypeGlyph)
    ensures h == Shifted(g)
  {
    h := g;
    if h.xMin < 0 {
      var xs := FontFace.MovePoints(h.xCoords, -1 * h.xMin);
      h := h.(xCoords := xs, xMax := I16(h.xMax + (-1 * h.xMin)), xMin := I16(h.xMin + (-1 * h.xMin)));
    }
    if h.yMin < 0 {
      var ys := FontFace.MovePoints(h.yCoords, -1 * h.yMin);
      h := h.(yCoords := ys, yMax := I16(h.yMax + (-1 * h.yMin)), yMin := I16(h.yMin + (-1 * h.yMin)));
    }
  }

  // ---------------------------------------------------------------------
  // Segment requests

  /** A point in font design units, as the `float` arguments of
      `calculate_segment_path` carry it. */
  datatype FPoint = FPoint(x: int, y: int)

  /** The arguments of one `calculate_segment_path` call: the end points,
      whether the segment is a quadratic curve, and its control point
      (0, 0 for a line). */
  datatype PathRequest = PathRequest(p1: FPoint, p2: FPoint, bezier: bool, control: FPoint)

  function Line(a: FPoint, b: FPoint): PathRequest {
    PathRequest(a, b, false, FPoint(0, 0))
  }

  function Curve(a: FPoint, b: FPoint, c: FPoint): PathRequest {
    PathRequest(a, b, true, c)
  }

  /** Point `j` of the glyph. */
  function P(g: TruetypeGlyph, j: nat): FPoint
    requires j < |g.xCoords| && j < |g.yCoords|
  {
    FPoint(g.xCoords[j], g.yCoords[j])
  }

  /** Point `j` read into an `ivec2`: each coordinate cast to `uint32_t`. */
  function PU(g: TruetypeGlyph, j: nat): IVec2
    requires j < |g.xCoords| && j < |g.yCoords|
  {
    IVec2(U32(g.xCoords[j]), U32(g.yCoords[j]))
  }

  /** An `ivec2` passed on as a point. */
  function Pt(v: IVec2): FPoint {
    FPoint(v.x, v.y)
  }

  /** The phantom point between points `a` and `b`. */
  function Between(g: TruetypeGlyph, a: nat, b: nat): IVec2
    requires a < |g.xCoords| && a < |g.yCoords| && b < |g.xCoords| && b < |g.yCoords|
  {
    Midpoint(U32(g.xCoords[a]), U32(g.xCoords[b]), U32(g.yCoords[a]), U32(g.yCoords[b]))
  }

  /** Every point has its flags and both coordinates; the flag array may
      run past the points, as the last repeat run of a decoded glyph can. */
  predicate PointArrays(g: TruetypeGlyph)
  {
    |g.flags| >= |g.xCoords| == |g.yCoords|
  }

  predicate On(g: TruetypeGlyph, j: nat)
    requires j < |g.flags|
  {
    g.flags[j].onCurvePoint
  }

  /** The contour from point `k` to point `e` is one the walk closes: it
      is not empty, starts on the curve, and its coordinates are
      non-negative (as after the shift). */
  predicate ClosableContour(g: TruetypeGlyph, k: nat, e: nat)
    requires PointArrays(g) && e < |g.xCoords|
  {
    k <= e && On(g, k)
    && forall m :: k <= m <= e ==> g.xCoords[m] >= 0 && g.yCoords[m] >= 0
  }

  /** Each segment starts where the one before it ends. */
  predicate Chained(s: seq<PathRequest>)
  {
    forall t :: 0 <= t < |s| - 1 ==> s[t].p2 == s[t + 1].p1
  }

  /** `s` is a closed path through `a`: it starts at `a`, each segment
      starts where the one before ends, and the last ends at `a`. */
  predicate ClosedAt(s: seq<PathRequest>, a: FPoint)
  {
    |s| > 0 && s[0].p1 == a && s[|s| - 1].p2 == a && Chained(s)
  }

  /** All points of the contour from `k` to `e` are on the curve. */
  predicate AllOn(g: TruetypeGlyph, k: nat, e: nat)
    requires PointArrays(g) && e < |g.xCoords|
  {
    forall m :: k <= m <= e ==> On(g, m)
  }

  /** The first `n` edges of the polygon through points `k`..`e`, the last
      one closing back to `k`. */
  function Polygon(g: TruetypeGlyph, k: nat, e: nat, n: nat): (s: seq<PathRequest>)
    requires PointArrays(g) && k <= e < |g.xCoords| && n <= e - k + 1
    ensures |s| == n
  {
    seq(n, t requires 0 <= t < n => Line(P(g, k + t), P(g, if k + t == e then k else k + t + 1)))
  }

  // ---------------------------------------------------------------------
  // The contour walk

  /** The state of the walk over the contour from `k` to `e` before it
      visits point `j`: `cap` is `coord_array_position`, `phantom` and `pv`
      the pending implied point.  On a closable contour the segments so far
      form a chain from point `k` to the point the walk stands on (the
      pending implied point when there is one), or back to `k` once the
      contour is done; on a contour of on-curve points they are the first
      edges of its polygon. */
  ghost predicate Walking(g: TruetypeGlyph, k: nat, e: nat, j: nat, cap: nat, phantom: bool, pv: IVec2, segs: seq<PathRequest>)
    requires PointArrays(g) && e < |g.xCoords|
  {
    k <= j && |segs| <= j - k
    && (k <= e ==> j <= e + 1)
    && (j <= e ==> cap == k)
    && (k <= e && j == e + 1 ==> cap == e + 1)
    && (k > e ==> cap == k && j == k)
    && (j == k ==> segs == [] && !phantom)
    && (ClosableContour(g, k, e) ==>
          (j <= e ==> (phantom <==> !On(g, j)))
          && (j > k ==> |segs| > 0 && segs[0].p1 == P(g, k) && Chained(segs))
          && (k < j <= e ==> segs[|segs| - 1].p2 == if phantom then Pt(pv) else P(g, j))
          && (j == e + 1 ==> segs[|segs| - 1].p2 == P(g, k))
          && (AllOn(g, k, e) ==> segs == Polygon(g, k, e, j - k)))
  }

  /** The walk over the contour ending at point `e`, starting at `cap`
      (the first point after the previous contour).  On a closable contour
      the segments form a closed path through its first point, and on a
      contour of on-curve points they are exactly the edges of its polygon.
      `cap` moves past `e` unless the contour is empty. */
  method WalkContour(g: TruetypeGlyph, e: nat, cap: nat) returns (segs: seq<PathRequest>, cap': nat)
    requires PointArrays(g) && e < |g.xCoords|
    ensures cap' == if cap <= e then e + 1 else cap
    ensures |segs| <= if cap <= e then e + 1 - cap else 0
    ensures ClosableContour(g, cap, e) ==> ClosedAt(segs, P(g, cap))
    ensures ClosableContour(g, cap, e) && AllOn(g, cap, e) ==> segs == Polygon(g, cap, e, e + 1 - cap)
  {
    segs := [];
    cap' := cap;
    var j := cap;
    var phantom := false;
    var pv := IVec2(0, 0);
    while j <= e
      invariant Walking(g, cap, e, j, cap', phantom, pv, segs)
      decreases e + 1 - j
    {
      segs, cap', phantom, pv, j := WalkStep(g, cap, e, j, cap', phantom, pv, segs);
    }
  }

  /** One pass of the body of the walk at point `j`. */
  method WalkStep(g: TruetypeGlyph, ghost k: nat, e: nat, j: nat, cap: nat, phantom: bool, pv: IVec2, segs: seq<PathRequest>)
    returns (segs': seq<PathRequest>, cap': nat, phantom': bool, pv': IVec2, j': nat)
    requires PointArrays(g) && e < |g.xCoords| && j <= e
    requires Walking(g, k, e, j, cap, phantom, pv, segs)
    ensures j < j' && Walking(g, k, e, j', cap', phantom', pv', segs')
  {
    if j != e {
      if On(g, j) && !On(g, j + 1) {
        segs', cap', phantom', pv', j' := CurveFromOn(g, k, e, j, cap, phantom, pv, segs);
      } else {
        segs', phantom', pv' := InnerStep(g, k, e, j, cap, phantom, pv, segs);
        cap', j' := cap, j + 1;
      }
    } else {
      segs', phantom' := CloseContour(g, k, e, cap, phantom, pv, segs);
      cap', pv', j' := j + 1, pv, j + 1;
    }
  }

  /** An on-curve point followed by an off-curve one: a curve to the point
      after the control point, or to the implied point when that one is
      off the curve too; the walk then skips the control point. */
  method CurveFromOn(g: TruetypeGlyph, ghost k: nat, e: nat, j: nat, cap: nat, phantom: bool, pv: IVec2, segs: seq<PathRequest>)
    returns (segs': seq<PathRequest>, cap': nat, phantom': bool, pv': IVec2, j': nat)
    requires PointArrays(g) && e < |g.xCoords| && j < e && On(g, j) && !On(g, j + 1)
    requires Walking(g, k, e, j, cap, phantom, pv, segs)
    ensures j < j' && Walking(g, k, e, j', cap', phantom', pv', segs')
  {
    cap', phantom', pv', j' := cap, phantom, pv, j;
    var at := if j + 2 > e then cap else j + 2;
    var p2 := PU(g, at);
    if !On(g, at) {
      phantom' := true;
      p2 := Between(g, j + 1, at);
      pv' := p2;
    }
    segs' := segs + [Curve(P(g, j), Pt(p2), P(g, j + 1))];
    j' := j + 1;
    if j' + 1 > e {
      cap' := j' + 1;
    }
    j' := j' + 1;
  }

  /** The other cases at a point `j` before the last: a line between two
      on-curve points, a curve from the pending implied point to the next
      on-curve point, or a curve to the point implied between two off-curve
      points.  An off-curve point with no pending implied point adds
      nothing. */
  method InnerStep(g: TruetypeGlyph, ghost k: nat, e: nat, j: nat, cap: nat, phantom: bool, pv: IVec2, segs: seq<PathRequest>)
    returns (segs': seq<PathRequest>, phantom': bool, pv': IVec2)
    requires PointArrays(g) && e < |g.xCoords| && j < e && !(On(g, j) && !On(g, j + 1))
    requires Walking(g, k, e, j, cap, phantom, pv, segs)
    ensures Walking(g, k, e, j + 1, cap, phantom', pv', segs')
  {
    segs', phantom', pv' := segs, phantom, pv;
    if On(g, j) && On(g, j + 1) {
      segs' := segs + [Line(P(g, j), P(g, j + 1))];
    } else if !On(g, j) && On(g, j + 1) && phantom {
      phantom' := false;
      segs' := segs + [Curve(Pt(pv), P(g, j + 1), P(g, j))];
    } else if !On(g, j) && !On(g, j + 1) && phantom {
      var at := if j + 1 > e then cap else j + 1;
      var p2 := Between(g, j, at);
      pv' := p2;
      segs' := segs + [Curve(Pt(pv), Pt(p2), P(g, j))];
    }
  }

  /** The last point of the contour: a line or a curve back to the first
      point. */
  method CloseContour(g: TruetypeGlyph, ghost k: nat, e: nat, cap: nat, phantom: bool, pv: IVec2, segs: seq<PathRequest>)
    returns (segs': seq<PathRequest>, phantom': bool)
    requires PointArrays(g) && e < |g.xCoords|
    requires Walking(g, k, e, e, cap, phantom, pv, segs)
    ensures Walking(g, k, e, e + 1, e + 1, phantom', pv, segs')
  {
    segs', phantom' := segs, phantom;
    if On(g, e) && On(g, cap) {
      segs' := segs + [Line(P(g, e), P(g, cap))];
    } else if !On(g, e) && On(g, cap) && phantom {
      phantom' := false;
      segs' := segs + [Curve(Pt(pv), P(g, cap), P(g, e))];
    }
  }

  // ---------------------------------------------------------------------
  // The walk over all contours

  /** The first point of contour `i`: the one after the previous contour's
      end point. */
  function ContourStart(g: TruetypeGlyph, i: nat): nat
    requires i < |g.endPtsOfContours|
  {
    if i == 0 then 0 else g.endPtsOfContours[i - 1] as nat + 1
  }

  /** Every end point of a contour the walk visits names a point. */
  predicate EndPointsInRange(g: TruetypeGlyph)
  {
    PointArrays(g) && g.numContours as int <= |g.endPtsOfContours|
    && forall i :: 0 <= i < g.numContours as int ==> g.endPtsOfContours[i] as int < |g.xCoords|
  }

  /** Every contour is closable: the end points increase, each contour
      starts on the curve, and the coordinates are non-negative. */
  predicate ClosableContours(g: TruetypeGlyph)
    requires EndPointsInRange(g)
  {
    forall i :: 0 <= i < g.numContours as int ==> ClosableContour(g, ContourStart(g, i), g.endPtsOfContours[i] as nat)
  }

  /** `s[lo..hi]` is a closed path through `a`. */
  predicate ClosedRun(s: seq<PathRequest>, lo: nat, hi: nat, a: FPoint)
    requires hi <= |s|
  {
    lo < hi && s[lo].p1 == a && s[hi - 1].p2 == a
    && forall t :: lo <= t < hi - 1 ==> s[t].p2 == s[t + 1].p1
  }

  /** The starts are in ascending order and end at `n`. */
  predicate Boundaries(starts: seq<nat>, n: nat)
  {
    |starts| > 0 && starts[0] == 0 && starts[|starts| - 1] == n
    && forall a, b :: 0 <= a <= b < |starts| ==> starts[a] <= starts[b]
  }

  /** The first `n` runs marked by `starts` are closed paths through the
      first points of their contours. */
  ghost predicate RunsClosed(g: TruetypeGlyph, paths: seq<PathRequest>, starts: seq<nat>, n: nat)
    requires EndPointsInRange(g) && ClosableContours(g) && n <= g.numContours as int && |starts| == n + 1 && Boundaries(starts, |paths|)
  {
    forall a :: 0 <= a < n ==> ClosedRun(paths, starts[a], starts[a + 1], P(g, ContourStart(g, a)))
  }

  /** Appending the closed path of contour `n` extends the closed runs. */
  lemma RunsClosedAppend(g: TruetypeGlyph, paths: seq<PathRequest>, starts: seq<nat>, n: nat, segs: seq<PathRequest>)
    requires EndPointsInRange(g) && ClosableContours(g) && n < g.numContours as int && |starts| == n + 1 && Boundaries(starts, |paths|)
    requires RunsClosed(g, paths, starts, n) && ClosedAt(segs, P(g, ContourStart(g, n)))
    ensures Boundaries(starts + [|paths + segs|], |paths + segs|)
    ensures RunsClosed(g, paths + segs, starts + [|paths + segs|], n + 1)
  {
    var s', t' := paths + segs, starts + [|paths + segs|];
    forall a | 0 <= a < n + 1
      ensures ClosedRun(s', t'[a], t'[a + 1], P(g, ContourStart(g, a)))
    {
      if a < n {
        assert t'[a] == starts[a] && t'[a + 1] == starts[a + 1];
        ClosedRunExtended(paths, segs, starts[a], starts[a + 1], P(g, ContourStart(g, a)));
      } else {
        assert t'[a] == |paths| && t'[a + 1] == |s'|;
        ClosedRunAppended(paths, segs, P(g, ContourStart(g, a)));
      }
    }
  }

  /** A closed run stays closed when more segments follow. */
  lemma ClosedRunExtended(s: seq<PathRequest>, t: seq<PathRequest>, lo: nat, hi: nat, a: FPoint)
    requires hi <= |s| && ClosedRun(s, lo, hi, a)
    ensures ClosedRun(s + t, lo, hi, a)
  {
    assert forall k :: 0 <= k < hi ==> (s + t)[k] == s[k];
  }

  /** A closed path appended to any segments is a closed run at their end. */
  lemma ClosedRunAppended(s: seq<PathRequest>, t: seq<PathRequest>, a: FPoint)
    requires ClosedAt(t, a)
    ensures ClosedRun(s + t, |s|, |s + t|, a)
  {
    forall k | |s| <= k < |s + t| - 1
      ensures (s + t)[k].p2 == (s + t)[k + 1].p1
    {
      assert t[k - |s|].p2 == t[k - |s| + 1].p1;
    }
  }

  /** The contour loop of `m_rasterize_truetype_glyph`: the segments of
      every contour in order.  Contour `i`'s segments are
      `paths[starts[i]..starts[i + 1]]`, and when every contour is closable
      each of them is a closed path through the contour's first point. */
  method WalkOutline(g: TruetypeGlyph) returns (paths: seq<PathRequest>, ghost starts: seq<nat>)
    requires EndPointsInRange(g)
    ensures |starts| == (if g.numContours < 0 then 0 else g.numContours as int) + 1
    ensures Boundaries(starts, |paths|)
    ensures ClosableContours(g) && g.numContours >= 0 ==> RunsClosed(g, paths, starts, g.numContours as int)
  {
    paths, starts := [], [0];
    var cap: nat := 0;
    var i := 0;
    while i < g.numContours as int
      invariant 0 <= i && (g.numContours >= 0 ==> i <= g.numContours as int) && (g.numContours < 0 ==> i == 0)
      invariant |starts| == i + 1 && Boundaries(starts, |paths|)
      invariant ClosableContours(g) ==> (i < g.numContours as int ==> cap == ContourStart(g, i))
      invariant ClosableContours(g) && g.numContours >= 0 ==> RunsClosed(g, paths, starts, i)
    {
      paths, starts, cap := WalkNext(g, i, cap, paths, starts);
      i := i + 1;
    }
  }

  /** One pass of the contour loop: the walk over contour `i` appended. */
  method WalkNext(g: TruetypeGlyph, i: nat, cap: nat, paths: seq<PathRequest>, ghost starts: seq<nat>)
    returns (paths': seq<PathRequest>, ghost starts': seq<nat>, cap': nat)
    requires EndPointsInRange(g) && i < g.numContours as int
    requires |starts| == i + 1 && Boundaries(starts, |paths|)
    requires ClosableContours(g) ==> cap == ContourStart(g, i) && RunsClosed(g, paths, starts, i)
    ensures |starts'| == i + 2 && Boundaries(starts', |paths'|)
    ensures ClosableContours(g) ==> (i + 1 < g.numContours as int ==> cap' == ContourStart(g, i + 1)) && RunsClosed(g, paths', starts', i + 1)
  {
    var e := g.endPtsOfContours[i] as nat;
    var segs;
    segs, cap' := WalkContour(g, e, cap);
    if ClosableContours(g) {
      assert ClosableContour(g, ContourStart(g, i), e);
      RunsClosedAppend(g, paths, starts, i, segs);
    }
    paths' := paths + segs;
    starts' := starts + [|paths'|];
  }
}
