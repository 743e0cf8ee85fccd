/** The interior fill of the rasterizer.  Each row of crossings (sorted by
    their sampled position) is walked pair by pair; a pair of neighbouring
    crossings decides from the traits of their segments whether the pixels
    between them lie inside the glyph, and paints them black if so.  A pair
    whose traits disagree with a crossing at the same 26.6 x from another
    segment (a duplicate) is resolved from the traits of both. */
module InteriorFill {
  import opened Util
  import opened Pixels
  import opened FontTypes
  import opened Bitmap
  import opened Outline

  // ---------------------------------------------------------------------
  // `get_adjacent_segment_id`

  /** Segment `seg` starts at (f, y). */
  predicate StartsAt(seg: GlyphOutlineSegment, f: u32, y: u32) {
    seg.start.x == f && seg.start.y == y
  }

  /** Segment `seg` ends at (f, y). */
  predicate EndsAt(seg: GlyphOutlineSegment, f: u32, y: u32) {
    seg.end.x == f && seg.end.y == y
  }

  /** Segment `seg` starts or ends at (f, y). */
  predicate Touches(seg: GlyphOutlineSegment, f: u32, y: u32) {
    StartsAt(seg, f, y) || EndsAt(seg, f, y)
  }

  /** The scan from index `i` on: the first segment other than `id` that
      starts or ends at (f, y), or -1 when there is none. */
  function ScanAdjacent(segs: seq<GlyphOutlineSegment>, id: int, f: u32, y: u32, i: nat): (r: int)
    requires i <= |segs|
    ensures r == -1 || (i <= r < |segs| && r != id && Touches(segs[r], f, y))
    decreases |segs| - i
  {
    if i == |segs| then -1
    else if Touches(segs[i], f, y) && i != id then i
    else ScanAdjacent(segs, id, f, y, i + 1)
  }

  /** The scan answers -1 exactly when no segment from `i` on other than
      `id` starts or ends at (f, y), and otherwise the first one that does. */
  lemma {:induction false} ScanAdjacentIsFirst(segs: seq<GlyphOutlineSegment>, id: int, f: u32, y: u32, i: nat)
    requires i <= |segs|
    ensures ScanAdjacent(segs, id, f, y, i) == -1 <==> forall k :: i <= k < |segs| && k != id ==> !Touches(segs[k], f, y)
    ensures ScanAdjacent(segs, id, f, y, i) != -1 ==>
      forall k :: i <= k < ScanAdjacent(segs, id, f, y, i) && k != id ==> !Touches(segs[k], f, y)
    decreases |segs| - i
  {
    if i < |segs| {
      ScanAdjacentIsFirst(segs, id, f, y, i + 1);
    }
  }

  /** `get_adjacent_segment_id`: the segment that meets crossing `x` at its
      point (x, y), looked for first among the segments numbered one above
      and one below `x`'s own (only when `x`'s id is at least 2, as the
      test `id - 1 > 0` is written), then among all segments in order; -1
      when no other segment starts or ends there. */
  function AdjacentSegment(x: GlyphOutlineValue, y: u32, segs: seq<GlyphOutlineSegment>): (r: int)
    ensures r != -1 ==> 0 <= r < |segs| && r != x.segmentId && Touches(segs[r], x.value.f26, y)
  {
    var id, f := x.segmentId, x.value.f26;
    if id + 1 < |segs| && id - 1 > 0 && StartsAt(segs[id + 1], f, y) then id + 1
    else if id + 1 < |segs| && id - 1 > 0 && EndsAt(segs[id - 1], f, y) then id - 1
    else ScanAdjacent(segs, id, f, y, 0)
  }

  /** No segment other than the crossing's own meets its point exactly
      when the answer is -1. */
  lemma AdjacentNone(x: GlyphOutlineValue, y: u32, segs: seq<GlyphOutlineSegment>)
    ensures AdjacentSegment(x, y, segs) == -1 <==> forall k :: 0 <= k < |segs| && k != x.segmentId ==> !Touches(segs[k], x.value.f26, y)
  {
    ScanAdjacentIsFirst(segs, x.segmentId, x.value.f26, y, 0);
  }

  /** The neighbours are preferred: when segment id + 1 starts at the
      crossing's point it is the answer, whatever lower segment also meets
      it. */
  lemma AdjacentPrefersSuccessor(x: GlyphOutlineValue, y: u32, segs: seq<GlyphOutlineSegment>)
    requires 2 <= x.segmentId && x.segmentId + 1 < |segs| && StartsAt(segs[x.segmentId + 1], x.value.f26, y)
    ensures AdjacentSegment(x, y, segs) == x.segmentId + 1
  {
  }

  /** The loop of `get_adjacent_segment_id`. */
  method GetAdjacentSegmentId(x: GlyphOutlineValue, y: u32, segs: seq<GlyphOutlineSegment>) returns (r: int)
    ensures r == AdjacentSegment(x, y, segs)
  {
    var id, f := x.segmentId, x.value.f26;
    if id + 1 < |segs| && id - 1 > 0 {
      if StartsAt(segs[id + 1], f, y) {
        return id + 1;
      } else if EndsAt(segs[id - 1], f, y) {
        return id - 1;
      }
    }
    var i := 0;
    while i < |segs|
      invariant i <= |segs| && ScanAdjacent(segs, id, f, y, i) == ScanAdjacent(segs, id, f, y, 0)
    {
      if StartsAt(segs[i], f, y) && id != i {
        return i;
      } else if EndsAt(segs[i], f, y) && id != i {
        return i;
      }
      i := i + 1;
    }
    return -1;
  }

  /** A horizontal crossing takes the "on" trait of the segment it meets,
      when one does. */
  function Adjusted(x: GlyphOutlineValue, y: u32, segs: seq<GlyphOutlineSegment>): (r: GlyphOutlineValue)
    ensures r.value == x.value && r.segmentId == x.segmentId && r.partOfHorizontal == x.partOfHorizontal
    ensures !x.partOfHorizontal || AdjacentSegment(x, y, segs) == -1 ==> r == x
  {
    if x.partOfHorizontal then
      var a := AdjacentSegment(x, y, segs);
      if a != -1 then x.(memberOfOnSegment := segs[a].denotesOnTransition) else x
    else x
  }

  /** The horizontal adjustment as the row loop writes it. */
  method AdjustHorizontal(x: GlyphOutlineValue, y: u32, segs: seq<GlyphOutlineSegment>) returns (r: GlyphOutlineValue)
    ensures r == Adjusted(x, y, segs)
  {
    r := x;
    if x.partOfHorizontal {
      var a := GetAdjacentSegmentId(x, y, segs);
      if a != -1 {
        r := r.(memberOfOnSegment := segs[a].denotesOnTransition);
      }
    }
  }

  // ---------------------------------------------------------------------
  // `check_for_duplicate_value_with_differing_trait`

  /** The `std::pair<bool, glyph_outline_value>` answer of the search. */
  datatype Match = Match(found: bool, value: GlyphOutlineValue)

  /** `v` sits at the 26.6 x of `x` but belongs to another segment. */
  predicate Duplicates(v: GlyphOutlineValue, x: GlyphOutlineValue) {
    v.value.f26 == x.value.f26 && v.segmentId != x.segmentId
  }

  /** The first crossing from position `j` of `row` that duplicates `x`;
      not found (with a value-initialised crossing) when none does. */
  function FirstDuplicate(x: GlyphOutlineValue, row: seq<GlyphOutlineValue>, j: nat): (r: Match)
    requires j <= |row|
    ensures r.found ==> Duplicates(r.value, x) && r.value in row
    ensures !r.found ==> r.value == DefaultOutlineValue
    decreases |row| - j
  {
    if j == |row| then Match(false, DefaultOutlineValue)
    else if Duplicates(row[j], x) then Match(true, row[j])
    else FirstDuplicate(x, row, j + 1)
  }

  /** A duplicate is found exactly when the row holds one from `j` on,
      and the one found is the first. */
  lemma {:induction false} FirstDuplicateIsFirst(x: GlyphOutlineValue, row: seq<GlyphOutlineValue>, j: nat)
    requires j <= |row|
    ensures FirstDuplicate(x, row, j).found <==> exists k :: j <= k < |row| && Duplicates(row[k], x)
    ensures FirstDuplicate(x, row, j).found ==> exists k :: (j <= k < |row| && row[k] == FirstDuplicate(x, row, j).value
      && forall m :: j <= m < k ==> !Duplicates(row[m], x))
    decreases |row| - j
  {
    if j < |row| && !Duplicates(row[j], x) {
      FirstDuplicateIsFirst(x, row, j + 1);
      if FirstDuplicate(x, row, j).found {
        var k :| j + 1 <= k < |row| && row[k] == FirstDuplicate(x, row, j).value
          && forall m :: j + 1 <= m < k ==> !Duplicates(row[m], x);
        assert forall m :: j <= m < k ==> !Duplicates(row[m], x);
      }
    }
  }

  /** The search loop of `check_for_duplicate_value_with_differing_trait`
      (its row and segment list arguments are not read). */
  method CheckForDuplicate(x: GlyphOutlineValue, row: seq<GlyphOutlineValue>) returns (r: Match)
    ensures r == FirstDuplicate(x, row, 0)
  {
    var j := 0;
    while j < |row|
      invariant j <= |row| && FirstDuplicate(x, row, j) == FirstDuplicate(x, row, 0)
    {
      if row[j].value.f26 == x.value.f26 && row[j].segmentId != x.segmentId {
        return Match(true, row[j]);
      }
      j := j + 1;
    }
    return Match(false, DefaultOutlineValue);
  }

  // ---------------------------------------------------------------------
  // `check_for_and_fill_interior_range`

  /** The crossings' segment ids are the same or one apart. */
  predicate Neighbours(s: GlyphOutlineValue, e: GlyphOutlineValue) {
    s.segmentId == e.segmentId || s.segmentId - e.segmentId == 1 || s.segmentId - e.segmentId == -1
  }

  /** The segment of crossing `s` is read only for an off bezier crossing. */
  predicate SegmentReadable(s: GlyphOutlineValue, e: GlyphOutlineValue, segs: seq<GlyphOutlineSegment>) {
    s.value.f26 != e.value.f26 && !s.memberOfOnSegment && s.partOfBezier ==> 0 <= s.segmentId < |segs|
  }

  /** Whether the range from `s` to `e` in row `y` is filled: never when
      both are at the same 26.6 x; when `s` is "on" and `e` is not; for
      two "on" crossings of the same or neighbouring segments more than a
      pixel apart (differences of the values cast to `int`); and for an off
      bezier crossing at or past its segment's control x in a row below
      its end. */
  function FillsRange(y: u32, s: GlyphOutlineValue, e: GlyphOutlineValue, segs: seq<GlyphOutlineSegment>): bool
    requires SegmentReadable(s, e, segs)
  {
    if s.value.f26 == e.value.f26 then false
    else
      var fill := s.memberOfOnSegment && !e.memberOfOnSegment;
      var fill' :=
        if !fill && Neighbours(s, e)
        then I32(e.value.f26) - I32(s.value.f26) > 64 && s.memberOfOnSegment && e.memberOfOnSegment
        else fill;
      if !fill' && !s.memberOfOnSegment && s.partOfBezier
      then s.value.f26 >= segs[s.segmentId].control.x && y < segs[s.segmentId].end.y
      else fill'
  }

  /** The fill rule case by case: equal x never fills; "on" to "off"
      always fills otherwise; two "on" crossings of unrelated segments never
      fill, nor two of neighbouring segments a pixel or less apart; an
      "off" start fills only as a bezier crossing past its control point
      on a row below its segment's end. */
  lemma FillRule(y: u32, s: GlyphOutlineValue, e: GlyphOutlineValue, segs: seq<GlyphOutlineSegment>)
    requires SegmentReadable(s, e, segs)
    ensures s.value.f26 == e.value.f26 ==> !FillsRange(y, s, e, segs)
    ensures s.value.f26 != e.value.f26 && s.memberOfOnSegment && !e.memberOfOnSegment ==> FillsRange(y, s, e, segs)
    ensures s.memberOfOnSegment && e.memberOfOnSegment ==>
      (FillsRange(y, s, e, segs) <==> s.value.f26 != e.value.f26 && Neighbours(s, e) && I32(e.value.f26) - I32(s.value.f26) > 64)
    ensures !s.memberOfOnSegment ==>
      (FillsRange(y, s, e, segs) <==> (s.value.f26 != e.value.f26 && s.partOfBezier
        && s.value.f26 >= segs[s.segmentId].control.x && y < segs[s.segmentId].end.y))
  {
  }

  /** The cells painted by the first `k` rounds of the fill loop from
      26.6 x `xs` in row `y`: round `j` paints the cell of x = xs + 64·j,
      which is `j` columns right of the cell of `xs`. */
  function SpanPrefix(xs: u32, y: u32, k: nat): set<Cell> {
    set c: nat | xs / 64 <= c < xs / 64 + k :: Cell(c, y / 64)
  }

  /** One more round paints the cell of x = xs + 64·k. */
  lemma SpanPrefixNext(xs: u32, y: u32, k: nat)
    ensures SpanPrefix(xs, y, k + 1) == SpanPrefix(xs, y, k) + {Cell((xs + 64 * k) / 64, y / 64)}
  {
    DivModUnique(xs + 64 * k, 64, xs / 64 + k, xs % 64);
  }

  /** The loop stops after the round whose x is the last one not past
      `xe`. */
  lemma SpanEnd(xs: u32, xe: u32, k: nat)
    requires xs + 64 * k > xe && (k > 0 ==> xs + 64 * (k - 1) <= xe)
    ensures k == if xs <= xe then (xe - xs) / 64 + 1 else 0
  {
    if xs <= xe {
      DivModUnique(xe - xs, 64, k - 1, xe - xs - 64 * (k - 1));
    }
  }

  /** The cells `for (x = xs; x <= xe; x += 64)` paints in row `y`. */
  function SpanCells(xs: u32, xe: u32, y: u32): set<Cell> {
    SpanPrefix(xs, y, if xs <= xe then (xe - xs) / 64 + 1 else 0)
  }

  /** The painted span is a run of whole pixel columns in pixel row y / 64,
      from the column of `xs` to at most the column of `xe`, reaching it
      when both are on the pixel grid. */
  lemma SpanColumns(xs: u32, xe: u32, y: u32)
    ensures forall c :: c in SpanCells(xs, xe, y) <==>
      c.y == y / 64 && xs <= xe && xs / 64 <= c.x <= xs / 64 + (xe - xs) / 64
    ensures xs <= xe ==> xs / 64 + (xe - xs) / 64 <= xe / 64
    ensures xs <= xe && xs % 64 == 0 && xe % 64 == 0 ==> xs / 64 + (xe - xs) / 64 == xe / 64
  {
    forall c: Cell | c.y == y / 64 && xs <= xe && xs / 64 <= c.x <= xs / 64 + (xe - xs) / 64
      ensures c in SpanCells(xs, xe, y)
    {
    }
    if xs <= xe {
      var q, d := xs / 64, (xe - xs) / 64;
      DivModUnique(xs + 64 * d, 64, q + d, xs % 64);
      if xs % 64 == 0 && xe % 64 == 0 {
        DivModUnique(xe - xs, 64, xe / 64 - q, 0);
      }
    }
  }

  /** Every x the fill loop may reach stays below 2^32 and inside the image
      (`operator[]` does not check, and `x += 64` past 2^32 - 64 would wrap
      and never end the loop). */
  predicate SpanFits(xe: u32, y: u32, w: nat, h: nat) {
    xe < 0x1_0000_0000 - 64 && xe / 64 < w && y / 64 < h
  }

  /** `check_for_and_fill_interior_range`: decides with the fill rule and,
      when the range is filled, paints the cell of every x from `s` to `e`
      in steps of a pixel. */
  method CheckForAndFillInteriorRange(image: BitmapImage, y: u32, s: GlyphOutlineValue, e: GlyphOutlineValue,
                                      segs: seq<GlyphOutlineSegment>, ghost base: seq<Argb32>, ghost painted: set<Cell>)
    returns (filled: bool, ghost painted': set<Cell>)
    requires image.Valid() && SegmentReadable(s, e, segs)
    requires FillsRange(y, s, e, segs) && s.value.f26 <= e.value.f26 ==> SpanFits(e.value.f26, y, image.width, image.height)
    requires PaintedOver(image.pixels, image.width, image.height, base, painted)
    modifies image
    ensures image.Valid() && image.width == old(image.width) && image.height == old(image.height)
    ensures filled == FillsRange(y, s, e, segs)
    ensures painted' == painted + if filled then SpanCells(s.value.f26, e.value.f26, y) else {}
    ensures PaintedOver(image.pixels, image.width, image.height, base, painted')
  {
    painted' := painted;
    filled := FillsRange(y, s, e, segs);
    if filled {
      painted' := PaintSpan(image, s.value.f26, e.value.f26, y, base, painted);
    }
  }

  /** The loop `for (uint32_t x = xs; x <= xe; x += 64)` painting the cell
      of each x in row `y`. */
  method PaintSpan(image: BitmapImage, xs: u32, xe: u32, y: u32, ghost base: seq<Argb32>, ghost painted: set<Cell>)
    returns (ghost painted': set<Cell>)
    requires image.Valid() && (xs <= xe ==> SpanFits(xe, y, image.width, image.height))
    requires PaintedOver(image.pixels, image.width, image.height, base, painted)
    modifies image
    ensures image.Valid() && image.width == old(image.width) && image.height == old(image.height)
    ensures painted' == painted + SpanCells(xs, xe, y)
    ensures PaintedOver(image.pixels, image.width, image.height, base, painted')
  {
    painted' := painted;
    var x: u32 := xs;
    ghost var j: nat := 0;
    while x <= xe
      invariant image.Valid() && image.width == old(image.width) && image.height == old(image.height)
      invariant x == xs + 64 * j && (j > 0 ==> x - 64 <= xe)
      invariant painted' == painted + SpanPrefix(xs, y, j)
      invariant PaintedOver(image.pixels, image.width, image.height, base, painted')
      decreases xe - x
    {
      painted' := Paint(image, Cell(x / 64, y / 64), base, painted');
      SpanPrefixNext(xs, y, j);
      x := x + 64;
      j := j + 1;
    }
    SpanEnd(xs, xe, j);
  }

  // ---------------------------------------------------------------------
  // The pair walk of one row

  /** Every crossing of the row names a segment of the outline. */
  predicate RowIds(row: seq<GlyphOutlineValue>, segs: seq<GlyphOutlineSegment>) {
    forall k :: 0 <= k < |row| ==> 0 <= row[k].segmentId < |segs|
  }

  /** Every crossing of the row names a segment of the outline and lets the
      fill loop stay inside a `w` × `h` image. */
  predicate RowFits(y: u32, row: seq<GlyphOutlineValue>, segs: seq<GlyphOutlineSegment>, w: nat, h: nat) {
    RowIds(row, segs) && forall k :: 0 <= k < |row| ==> SpanFits(row[k].value.f26, y, w, h)
  }

  /** The first adjustment of a pair: when the previous pair was filled and
      ended at this pair's start value, an "off" end of a segment next to
      the previous end's (also "off") makes the start count as "on". */
  function Carried(s: GlyphOutlineValue, e: GlyphOutlineValue, prevEnd: GlyphOutlineValue, prevFilled: bool): (r: GlyphOutlineValue)
    ensures r == s || (r == s.(memberOfOnSegment := true) && prevFilled)
  {
    if GlyphValueEq(prevEnd.value, s.value) && prevFilled
       && !e.memberOfOnSegment && !prevEnd.memberOfOnSegment
       && (e.segmentId - prevEnd.segmentId == -1 || e.segmentId - prevEnd.segmentId == 1)
    then s.(memberOfOnSegment := true)
    else s
  }

  /** The pair the fill rule is finally asked about, and whether it is
      asked at all. */
  datatype Pair = Pair(start: GlyphOutlineValue, end: GlyphOutlineValue, check: bool)

  /** The outcome of the duplicate cases: decided, or left to the common
      path. */
  datatype Verdict = Undecided | Decided(pair: Pair)

  /** Segments `a` and `b` meet at a vertical "on" (or, with `on` false,
      "off") segment next to one running in direction `dir`. */
  predicate VerticalAt(segs: seq<GlyphOutlineSegment>, a: int, b: int, on: bool, dir: int)
    requires 0 <= a < |segs| && 0 <= b < |segs|
  {
    (segs[a].denotesOnTransition == on && segs[a].vertical && segs[b].direction == dir)
    || (segs[a].direction == dir && segs[b].denotesOnTransition == on && segs[b].vertical)
  }

  /** Both ends of the pair have a duplicate of the other "on" trait; `a`,
      `b` are the segments of the start and its duplicate, `c`, `d` those of
      the end and its duplicate.  With no vertical segment among them, all
      four running right to left leave the range unfilled, all four left to
      right fill it as "on" to "off", and any other mix goes on to the
      common path.  With a vertical one, a vertical "on" start and "off"
      end next to left-to-right segments fill as "on" to "off"; next to
      right-to-left segments the lower-numbered start and higher-numbered
      end are checked; otherwise the range is left unfilled. */
  function Special(segs: seq<GlyphOutlineSegment>, s: GlyphOutlineValue, sd: GlyphOutlineValue,
                   e: GlyphOutlineValue, ed: GlyphOutlineValue): (v: Verdict)
    requires 0 <= s.segmentId < |segs| && 0 <= sd.segmentId < |segs| && 0 <= e.segmentId < |segs| && 0 <= ed.segmentId < |segs|
    ensures v.Decided? ==> (v.pair.start == s || v.pair.start == sd || v.pair.start == s.(memberOfOnSegment := true))
    ensures v.Decided? ==> (v.pair.end == e || v.pair.end == ed || v.pair.end == e.(memberOfOnSegment := false))
  {
    var a, b, c, d := s.segmentId, sd.segmentId, e.segmentId, ed.segmentId;
    if !segs[a].vertical && !segs[b].vertical && !segs[c].vertical && !segs[d].vertical then
      if segs[a].direction == 0 && segs[b].direction == 0 && segs[c].direction == 0 && segs[d].direction == 0 then
        Decided(Pair(s, e, false))
      else if segs[a].direction == 1 && segs[b].direction == 1 && segs[c].direction == 1 && segs[d].direction == 1 then
        Decided(Pair(s.(memberOfOnSegment := true), e.(memberOfOnSegment := false), true))
      else Undecided
    else if VerticalAt(segs, a, b, true, 1) && VerticalAt(segs, c, d, false, 1) then
      Decided(Pair(s.(memberOfOnSegment := true), e.(memberOfOnSegment := false), true))
    else if VerticalAt(segs, a, b, true, 0) && VerticalAt(segs, c, d, false, 0) then
      Decided(Pair(if a < b then s else sd, if c > d then e else ed, true))
    else
      Decided(Pair(s, e, false))
  }

  /** The common path: an "off" start with an "on" duplicate and an "on"
      end with an "off" duplicate take their duplicates, and horizontal
      crossings take the trait of the segment they meet. */
  function Common(y: u32, segs: seq<GlyphOutlineSegment>, s: GlyphOutlineValue, sm: Match, e: GlyphOutlineValue, em: Match): (p: Pair)
    requires sm.found ==> sm.value.value.f26 == s.value.f26
    requires em.found ==> em.value.value.f26 == e.value.f26
    ensures p.check && p.start.value.f26 == s.value.f26 && p.end.value.f26 == e.value.f26
    ensures p.start.segmentId == s.segmentId || (sm.found && p.start.segmentId == sm.value.segmentId)
    ensures p.end.segmentId == e.segmentId || (em.found && p.end.segmentId == em.value.segmentId)
  {
    var s1 := if sm.found && !s.memberOfOnSegment && sm.value.memberOfOnSegment then sm.value else s;
    var e1 := if em.found && e.memberOfOnSegment && !em.value.memberOfOnSegment then em.value else e;
    Pair(Adjusted(s1, y, segs), Adjusted(e1, y, segs), true)
  }

  /** Everything the row loop does to a pair the fill rule has refused:
      the duplicate cases first, the common path otherwise.  The pair keeps
      the 26.6 x of both crossings and names segments of the outline. */
  function Resolve(y: u32, row: seq<GlyphOutlineValue>, segs: seq<GlyphOutlineSegment>, s: GlyphOutlineValue, e: GlyphOutlineValue): (p: Pair)
    requires RowIds(row, segs) && 0 <= s.segmentId < |segs| && 0 <= e.segmentId < |segs|
    ensures p.start.value.f26 == s.value.f26 && p.end.value.f26 == e.value.f26
    ensures 0 <= p.start.segmentId < |segs| && 0 <= p.end.segmentId < |segs|
  {
    var sm, em := FirstDuplicate(s, row, 0), FirstDuplicate(e, row, 0);
    var v := if sm.found && em.found
                && s.memberOfOnSegment != sm.value.memberOfOnSegment
                && e.memberOfOnSegment != em.value.memberOfOnSegment
             then Special(segs, s, sm.value, e, em.value)
             else Undecided;
    if v.Decided? then v.pair else Common(y, segs, s, sm, e, em)
  }

  /** The row loop's handling of a refused pair, as it is written: the two
      duplicate searches, the duplicate cases, then the common path. */
  method ResolvePair(y: u32, row: seq<GlyphOutlineValue>, segs: seq<GlyphOutlineSegment>, s: GlyphOutlineValue, e: GlyphOutlineValue)
    returns (p: Pair)
    requires RowIds(row, segs) && 0 <= s.segmentId < |segs| && 0 <= e.segmentId < |segs|
    ensures p == Resolve(y, row, segs, s, e)
  {
    var sm := CheckForDuplicate(s, row);
    var em := CheckForDuplicate(e, row);
    if sm.found && em.found {
      if s.memberOfOnSegment != sm.value.memberOfOnSegment && e.memberOfOnSegment != em.value.memberOfOnSegment {
        var v := Special(segs, s, sm.value, e, em.value);
        if v.Decided? {
          return v.pair;
        }
      }
    }
    var xstart, xend := s, e;
    if sm.found && !xstart.memberOfOnSegment && sm.value.memberOfOnSegment {
      xstart := sm.value;
    }
    if em.found && xend.memberOfOnSegment && !em.value.memberOfOnSegment {
      xend := em.value;
    }
    xstart := AdjustHorizontal(xstart, y, segs);
    xend := AdjustHorizontal(xend, y, segs);
    p := Pair(xstart, xend, true);
  }

  /** What a pair leaves behind: the end the next pair compares against,
      whether it was filled, and the cells it painted. */
  datatype Step = Step(end: GlyphOutlineValue, filled: bool, cells: set<Cell>)

  /** Pair `i`, `i + 1` of the row after a previous pair that ended with
      `prevEnd` and was (or was not) filled: the fill rule on the carried
      start first, and if that refuses, on the resolved pair.  Whatever is
      painted lies between the pair's own two crossings. */
  function PairStep(y: u32, row: seq<GlyphOutlineValue>, segs: seq<GlyphOutlineSegment>, i: nat,
                    prevEnd: GlyphOutlineValue, prevFilled: bool): (r: Step)
    requires i + 1 < |row| && RowIds(row, segs)
    ensures r.cells == if r.filled then SpanCells(row[i].value.f26, row[i + 1].value.f26, y) else {}
  {
    var s := Carried(row[i], row[i + 1], prevEnd, prevFilled);
    var e := row[i + 1];
    if FillsRange(y, s, e, segs) then Step(e, true, SpanCells(s.value.f26, e.value.f26, y))
    else
      var p := Resolve(y, row, segs, s, e);
      var filled := p.check && FillsRange(y, p.start, p.end, segs);
      Step(p.end, filled, if filled then SpanCells(p.start.value.f26, p.end.value.f26, y) else {})
  }

  /** Two neighbouring crossings at the same 26.6 x paint nothing between
      them, whatever their traits and duplicates. */
  lemma SameXPaintsNothing(y: u32, row: seq<GlyphOutlineValue>, segs: seq<GlyphOutlineSegment>, i: nat,
                           prevEnd: GlyphOutlineValue, prevFilled: bool)
    requires i + 1 < |row| && RowIds(row, segs) && row[i].value.f26 == row[i + 1].value.f26
    ensures !PairStep(y, row, segs, i, prevEnd, prevFilled).filled
    ensures PairStep(y, row, segs, i, prevEnd, prevFilled).cells == {}
  {
    var s := Carried(row[i], row[i + 1], prevEnd, prevFilled);
    var p := Resolve(y, row, segs, s, row[i + 1]);
    FillRule(y, s, row[i + 1], segs);
    FillRule(y, p.start, p.end, segs);
  }

  /** The state of the row walk after its first `n` pairs. */
  function RowWalk(y: u32, row: seq<GlyphOutlineValue>, segs: seq<GlyphOutlineSegment>, n: nat): Step
    requires n < |row| || n == 0
    requires RowIds(row, segs)
  {
    if n == 0 then Step(DefaultOutlineValue, false, {})
    else
      var prev := RowWalk(y, row, segs, n - 1);
      var step := PairStep(y, row, segs, n - 1, prev.end, prev.filled);
      Step(step.end, step.filled, prev.cells + step.cells)
  }

  /** The cells the row loop paints in row `y`: the walk over all its
      neighbouring pairs (none for fewer than two crossings). */
  function RowCells(y: u32, row: seq<GlyphOutlineValue>, segs: seq<GlyphOutlineSegment>): set<Cell>
    requires RowIds(row, segs)
  {
    RowWalk(y, row, segs, if |row| == 0 then 0 else |row| - 1).cells
  }

  /** Every painted cell of a row lies in pixel row y / 64, between the
      columns of two neighbouring crossings of the row. */
  lemma {:induction false} RowWalkBetween(y: u32, row: seq<GlyphOutlineValue>, segs: seq<GlyphOutlineSegment>, n: nat)
    requires (n < |row| || n == 0) && RowIds(row, segs)
    ensures forall c :: c in RowWalk(y, row, segs, n).cells ==> (c.y == y / 64
      && exists i :: 0 <= i < n && row[i].value.f26 / 64 <= c.x <= row[i + 1].value.f26 / 64)
  {
    if n > 0 {
      RowWalkBetween(y, row, segs, n - 1);
      var prev := RowWalk(y, row, segs, n - 1);
      var step := PairStep(y, row, segs, n - 1, prev.end, prev.filled);
      SpanColumns(row[n - 1].value.f26, row[n].value.f26, y);
      forall c | c in RowWalk(y, row, segs, n).cells
        ensures c.y == y / 64 && exists i :: 0 <= i < n && row[i].value.f26 / 64 <= c.x <= row[i + 1].value.f26 / 64
      {
        if c in prev.cells {
          var i :| 0 <= i < n - 1 && row[i].value.f26 / 64 <= c.x <= row[i + 1].value.f26 / 64;
        } else {
          assert c in step.cells;
          assert row[n - 1].value.f26 / 64 <= c.x <= row[n].value.f26 / 64;
        }
      }
    }
  }

  /** A row of one "on" crossing followed by one "off" crossing further
      right fills exactly the columns between them. */
  lemma OnOffRowFills(y: u32, a: GlyphOutlineValue, b: GlyphOutlineValue, segs: seq<GlyphOutlineSegment>)
    requires 0 <= a.segmentId < |segs| && 0 <= b.segmentId < |segs|
    requires a.memberOfOnSegment && !b.memberOfOnSegment && a.value.f26 < b.value.f26
    ensures RowCells(y, [a, b], segs) == SpanCells(a.value.f26, b.value.f26, y)
  {
    var row := [a, b];
    assert Carried(a, b, DefaultOutlineValue, false) == a;
    FillRule(y, a, b, segs);
    assert RowWalk(y, row, segs, 1).cells == PairStep(y, row, segs, 0, DefaultOutlineValue, false).cells;
  }

  /** Fewer than two crossings paint nothing. */
  lemma LoneCrossingPaintsNothing(y: u32, row: seq<GlyphOutlineValue>, segs: seq<GlyphOutlineSegment>)
    requires |row| <= 1 && RowIds(row, segs)
    ensures RowCells(y, row, segs) == {}
  {
  }

  /** The row walk has done its first `i` pairs, ending with `prevEnd`,
      `prevFilled` and the cells `cells`. */
  ghost predicate WalkedTo(y: u32, row: seq<GlyphOutlineValue>, segs: seq<GlyphOutlineSegment>, i: nat,
                           prevEnd: GlyphOutlineValue, prevFilled: bool, cells: set<Cell>)
  {
    (i < |row| || i == 0) && RowIds(row, segs) && RowWalk(y, row, segs, i) == Step(prevEnd, prevFilled, cells)
  }

  /** One more pair extends the walk by its step. */
  lemma WalkedNext(y: u32, row: seq<GlyphOutlineValue>, segs: seq<GlyphOutlineSegment>, i: nat,
                   prevEnd: GlyphOutlineValue, prevFilled: bool, cells: set<Cell>, step: Step)
    requires i + 1 < |row| && WalkedTo(y, row, segs, i, prevEnd, prevFilled, cells)
    requires step == PairStep(y, row, segs, i, prevEnd, prevFilled)
    ensures WalkedTo(y, row, segs, i + 1, step.end, step.filled, cells + step.cells)
  {
  }

  /** A walk that has reached the last crossing has painted the row's
      cells. */
  lemma WalkedAll(y: u32, row: seq<GlyphOutlineValue>, segs: seq<GlyphOutlineSegment>, i: nat,
                  prevEnd: GlyphOutlineValue, prevFilled: bool, cells: set<Cell>)
    requires WalkedTo(y, row, segs, i, prevEnd, prevFilled, cells) && (i == |row| - 1 || |row| == 0)
    ensures RowIds(row, segs) && cells == RowCells(y, row, segs)
  {
  }

  /** One round of the row loop: pair `i`, `i + 1`, with the fill rule
      asked once, and again on the resolved pair if it refused.  The round
      takes the pair's step: it paints exactly the step's cells. */
  method FillPair(image: BitmapImage, y: u32, row: seq<GlyphOutlineValue>, segs: seq<GlyphOutlineSegment>, i: nat,
                  prevEnd: GlyphOutlineValue, prevFilled: bool, ghost base: seq<Argb32>, ghost painted: set<Cell>)
    returns (end: GlyphOutlineValue, filled: bool, ghost step: Step, ghost painted': set<Cell>)
    requires image.Valid() && i + 1 < |row| && RowFits(y, row, segs, image.width, image.height)
    requires PaintedOver(image.pixels, image.width, image.height, base, painted)
    modifies image
    ensures image.Valid() && image.width == old(image.width) && image.height == old(image.height)
    ensures step == PairStep(y, row, segs, i, prevEnd, prevFilled) && end == step.end && filled == step.filled
    ensures painted' == painted + step.cells
    ensures PaintedOver(image.pixels, image.width, image.height, base, painted')
  {
    step := PairStep(y, row, segs, i, prevEnd, prevFilled);
    var xstart := Carried(row[i], row[i + 1], prevEnd, prevFilled);
    var xend := row[i + 1];
    filled, painted' := CheckForAndFillInteriorRange(image, y, xstart, xend, segs, base, painted);
    if filled {
      return xend, filled, step, painted';
    }
    var p := ResolvePair(y, row, segs, xstart, xend);
    end := p.end;
    if p.check {
      filled, painted' := CheckForAndFillInteriorRange(image, y, p.start, p.end, segs, base, painted');
    }
  }

  /** A round of the row loop advances the walk by one pair. */
  method WalkPair(image: BitmapImage, y: u32, row: seq<GlyphOutlineValue>, segs: seq<GlyphOutlineSegment>, i: nat,
                  prevEnd: GlyphOutlineValue, prevFilled: bool, ghost base: seq<Argb32>, ghost painted0: set<Cell>,
                  ghost cells: set<Cell>, ghost painted: set<Cell>)
    returns (end: GlyphOutlineValue, filled: bool, ghost cells': set<Cell>, ghost painted': set<Cell>)
    requires image.Valid() && i + 1 < |row| && RowFits(y, row, segs, image.width, image.height)
    requires WalkedTo(y, row, segs, i, prevEnd, prevFilled, cells) && painted == painted0 + cells
    requires PaintedOver(image.pixels, image.width, image.height, base, painted)
    modifies image
    ensures image.Valid() && image.width == old(image.width) && image.height == old(image.height)
    ensures WalkedTo(y, row, segs, i + 1, end, filled, cells') && painted' == painted0 + cells'
    ensures PaintedOver(image.pixels, image.width, image.height, base, painted')
  {
    ghost var step;
    end, filled, step, painted' := FillPair(image, y, row, segs, i, prevEnd, prevFilled, base, painted);
    WalkedNext(y, row, segs, i, prevEnd, prevFilled, cells, step);
    cells' := cells + step.cells;
  }

  /** The pair walk of one row (`y` with its sorted crossings): a previous
      end value-initialised and not filled, then every neighbouring pair in
      order. */
  method FillRow(image: BitmapImage, y: u32, row: seq<GlyphOutlineValue>, segs: seq<GlyphOutlineSegment>,
                 ghost base: seq<Argb32>, ghost painted: set<Cell>)
    returns (ghost painted': set<Cell>)
    requires image.Valid() && RowFits(y, row, segs, image.width, image.height)
    requires PaintedOver(image.pixels, image.width, image.height, base, painted)
    modifies image
    ensures image.Valid() && image.width == old(image.width) && image.height == old(image.height)
    ensures painted' == painted + RowCells(y, row, segs)
    ensures PaintedOver(image.pixels, image.width, image.height, base, painted')
  {
    painted' := painted;
    var prevEnd := DefaultOutlineValue;
    var prevFilled := false;
    ghost var cells: set<Cell> := {};
    var i := 0;
    while i < |row|
      invariant image.Valid() && image.width == old(image.width) && image.height == old(image.height)
      invariant WalkedTo(y, row, segs, i, prevEnd, prevFilled, cells) && painted' == painted + cells
      invariant PaintedOver(image.pixels, image.width, image.height, base, painted')
    {
      if i == |row| - 1 {
        break;
      }
      prevEnd, prevFilled, cells, painted' := WalkPair(image, y, row, segs, i, prevEnd, prevFilled, base, painted, cells, painted');
      i := i + 1;
    }
    WalkedAll(y, row, segs, i, prevEnd, prevFilled, cells);
  }

  // ---------------------------------------------------------------------
  // All rows

  /** Every row of `outline` names segments of the outline. */
  predicate OutlineIds(outline: map<u32, seq<GlyphOutlineValue>>, segs: seq<GlyphOutlineSegment>) {
    forall y :: y in outline ==> RowIds(outline[y], segs)
  }

  /** The cells the interior fill paints for the rows of `ys`. */
  function RowsFill(outline: map<u32, seq<GlyphOutlineValue>>, segs: seq<GlyphOutlineSegment>, ys: set<u32>): set<Cell>
    requires OutlineIds(outline, segs)
  {
    set y, c | y in ys && y in outline && c in RowCells(y, outline[y], segs) :: c
  }

  /** The cells the interior fill paints: those of every row. */
  function InsideFill(outline: map<u32, seq<GlyphOutlineValue>>, segs: seq<GlyphOutlineSegment>): set<Cell>
    requires OutlineIds(outline, segs)
  {
    RowsFill(outline, segs, outline.Keys)
  }

  /** Adding a row to the rows filled adds that row's cells. */
  lemma RowsFillAdd(outline: map<u32, seq<GlyphOutlineValue>>, segs: seq<GlyphOutlineSegment>, ys: set<u32>, y: u32)
    requires OutlineIds(outline, segs) && y in outline
    ensures RowsFill(outline, segs, ys + {y}) == RowsFill(outline, segs, ys) + RowCells(y, outline[y], segs)
  {
    forall c | c in RowsFill(outline, segs, ys + {y})
      ensures c in RowsFill(outline, segs, ys) + RowCells(y, outline[y], segs)
    {
      var z :| z in ys + {y} && z in outline && c in RowCells(z, outline[z], segs);
      if z != y {
        assert c in RowsFill(outline, segs, ys);
      }
    }
  }

  /** Every cell the interior fill paints lies in the pixel row of one of
      the outline's rows, between the columns of two neighbouring crossings
      of that row. */
  lemma InsideFillBetween(outline: map<u32, seq<GlyphOutlineValue>>, segs: seq<GlyphOutlineSegment>, c: Cell)
    requires OutlineIds(outline, segs) && c in InsideFill(outline, segs)
    ensures exists y, i :: (y in outline && c.y == y / 64 && 0 <= i < |outline[y]| - 1
      && outline[y][i].value.f26 / 64 <= c.x <= outline[y][i + 1].value.f26 / 64)
  {
    var y :| y in outline && c in RowCells(y, outline[y], segs);
    var row := outline[y];
    RowWalkBetween(y, row, segs, if |row| == 0 then 0 else |row| - 1);
    var i :| 0 <= i < (if |row| == 0 then 0 else |row| - 1) && row[i].value.f26 / 64 <= c.x <= row[i + 1].value.f26 / 64;
  }

  /** The interior fill (`render_inside`): every row of `outline` but
      those with a single crossing is walked pair by pair. */
  method FillInside(image: BitmapImage, outline: map<u32, seq<GlyphOutlineValue>>, segs: seq<GlyphOutlineSegment>)
    requires image.Valid() && forall y :: y in outline ==> RowFits(y, outline[y], segs, image.width, image.height)
    modifies image
    ensures image.Valid() && image.width == old(image.width) && image.height == old(image.height)
    ensures OutlineIds(outline, segs)
    ensures PaintedOver(image.pixels, image.width, image.height, old(image.pixels), InsideFill(outline, segs))
  {
    ghost var base := image.pixels;
    ghost var painted: set<Cell> := {};
    var rows := outline.Keys;
    ghost var done: set<u32> := {};
    while rows != {}
      invariant rows <= outline.Keys && done == outline.Keys - rows
      invariant image.Valid() && image.width == old(image.width) && image.height == old(image.height)
      invariant painted == RowsFill(outline, segs, done)
      invariant PaintedOver(image.pixels, image.width, image.height, base, painted)
      decreases rows
    {
      var y :| y in rows;
      if |outline[y]| != 1 {
        painted := FillRow(image, y, outline[y], segs, base, painted);
      } else {
        LoneCrossingPaintsNothing(y, outline[y], segs);
      }
      RowsFillAdd(outline, segs, done, y);
      MoveKey(outline.Keys, rows, done, y);
      rows := rows - {y};
      done := done + {y};
    }
  }
}
