/** The segments of a rasterized outline: how `calculate_segment_path`
    classifies a segment from integer differences, how the rasterizer
    gathers the sampled crossings of all segments into one list per row,
    and how it strokes the outline.  The sampling itself (`calculate_over_t`)
    is floating point and is not modelled: a segment's crossings arrive as
    its `values` map, and the font-unit to 26.6 conversion is a function
    parameter. */
module Outline {
  import opened Util
  import opened Pixels
  import opened Canvas
  import opened FontTypes
  import opened Fixed26
  import opened Contours
  import opened Bitmap

  // ---------------------------------------------------------------------
  // Classification (`calculate_segment_path`)

  /** A font-unit coordinate in 26.6, rounded to the pixel grid; `toF26` is
      `convert_to_f26(convert_to_pixel(..))` at the face's size. */
  function GridF26(toF26: int -> u32, v: int): u32 {
    RoundF26(toF26(v))
  }

  /** `difference`: the change of the rounded 26.6 y from start to end
      (each cast to `int`), or for a curve whose rounded ends share a row
      the change of its font-unit y. */
  function YDifference(p: PathRequest, toF26: int -> u32): int {
    var d := I32(GridF26(toF26, p.p2.y)) - I32(GridF26(toF26, p.p1.y));
    if p.bezier && d == 0 then p.p2.y - p.p1.y else d
  }

  /** `direction`: 1 when the font-unit x grows from start to end, 0 when it
      shrinks, the default -1 when it does not change. */
  function Direction(p: PathRequest): (r: int)
    ensures r == -1 <==> p.p1.x == p.p2.x
    ensures r == 1 <==> p.p1.x < p.p2.x
    ensures r == 0 <==> p.p1.x > p.p2.x
  {
    var xd := p.p2.x - p.p1.x;
    if xd != 0 then (if xd > 0 then 1 else 0) else -1
  }

  /** The segment `calculate_segment_path` fills in for request `p`, with
      the crossings `values` that sampling produced. */
  function Classify(p: PathRequest, toF26: int -> u32, values: map<u32, seq<GlyphValue>>): (s: GlyphOutlineSegment)
    ensures s.start == IVec2(GridF26(toF26, p.p1.x), GridF26(toF26, p.p1.y))
    ensures s.end == IVec2(GridF26(toF26, p.p2.x), GridF26(toF26, p.p2.y))
    ensures s.bezier == p.bezier && s.values == values
  {
    var d := YDifference(p, toF26);
    var horizontal := d == 0 && !p.bezier;
    GlyphOutlineSegment(
      IVec2(GridF26(toF26, p.p1.x), GridF26(toF26, p.p1.y)),
      IVec2(GridF26(toF26, p.p2.x), GridF26(toF26, p.p2.y)),
      if p.bezier then IVec2(GridF26(toF26, p.control.x), GridF26(toF26, p.control.y)) else IVec2(0, 0),
      p.bezier,
      d > 0,
      horizontal,
      !horizontal && !p.bezier && p.p2.x - p.p1.x == 0,
      Direction(p),
      values)
  }

  /** The traits exclude each other: a horizontal segment is a line that is
      neither vertical nor an "on" transition; a vertical one is a line with
      no direction; a curve is neither. */
  lemma TraitsExclusive(p: PathRequest, toF26: int -> u32, values: map<u32, seq<GlyphValue>>)
    ensures var s := Classify(p, toF26, values);
      (s.horizontal ==> !s.bezier && !s.vertical && !s.denotesOnTransition)
      && (s.vertical ==> !s.bezier && !s.horizontal && s.direction == -1)
      && (s.bezier ==> !s.horizontal && !s.vertical)
      && (s.direction == -1 && !s.bezier ==> s.horizontal || s.vertical)
  {
  }

  /** The request traversed the other way. */
  function Reversed(p: PathRequest): PathRequest {
    p.(p1 := p.p2, p2 := p.p1)
  }

  /** Traversing a segment backwards negates its y difference: it is an
      "on" transition exactly when the forward one is neither "on" nor
      flat, it is horizontal or vertical exactly when the forward one is,
      and its direction is the opposite one. */
  lemma ReversedSegment(p: PathRequest, toF26: int -> u32, values: map<u32, seq<GlyphValue>>)
    ensures YDifference(Reversed(p), toF26) == -YDifference(p, toF26)
    ensures var s, r := Classify(p, toF26, values), Classify(Reversed(p), toF26, values);
      (r.denotesOnTransition <==> !s.denotesOnTransition && YDifference(p, toF26) != 0)
      && r.horizontal == s.horizontal && r.vertical == s.vertical
      && (s.direction == -1 <==> r.direction == -1)
      && (s.direction == 1 <==> r.direction == 0)
  {
  }

  /** With a conversion that keeps order and stays below 2^31 - 32, a line
      that rises in font units is an "on" transition or horizontal (its
      ends rounded to one row), and one that falls is never "on". */
  lemma LineRiseIsOn(p: PathRequest, toF26: int -> u32, values: map<u32, seq<GlyphValue>>)
    requires !p.bezier
    requires forall a, b :: a <= b ==> toF26(a) <= toF26(b)
    requires forall a :: toF26(a) < 0x8000_0000 - 32
    ensures p.p1.y < p.p2.y ==> Classify(p, toF26, values).denotesOnTransition || Classify(p, toF26, values).horizontal
    ensures p.p1.y >= p.p2.y ==> !Classify(p, toF26, values).denotesOnTransition
  {
    var a, b := toF26(p.p1.y), toF26(p.p2.y);
    if p.p1.y <= p.p2.y {
      F26Monotone(a, b);
    } else {
      F26Monotone(b, a);
    }
  }

  // ---------------------------------------------------------------------
  // Row crossings (`complete_outline`)

  /** The crossing of a row recorded for value `v` of segment `id`. */
  function Crossing(seg: GlyphOutlineSegment, id: int, v: GlyphValue): GlyphOutlineValue {
    GlyphOutlineValue(v, id, seg.denotesOnTransition, seg.bezier, seg.horizontal)
  }

  /** The first `j` crossings segment `id` contributes to row `y`. */
  function Contribution(segs: seq<GlyphOutlineSegment>, id: nat, y: u32, j: nat): (r: seq<GlyphOutlineValue>)
    requires id < |segs| && (y in segs[id].values ==> j <= |segs[id].values[y]|)
    ensures |r| == if y in segs[id].values then j else 0
  {
    if y in segs[id].values
    then seq(j, k requires 0 <= k < j => Crossing(segs[id], id, segs[id].values[y][k]))
    else []
  }

  /** All crossings of segment `id` in row `y`. */
  function Contributed(segs: seq<GlyphOutlineSegment>, id: nat, y: u32): seq<GlyphOutlineValue>
    requires id < |segs|
  {
    Contribution(segs, id, y, if y in segs[id].values then |segs[id].values[y]| else 0)
  }

  /** Row `y` of `complete_outline` after the first `n` segments, before
      sorting: their crossings in segment order. */
  function RowOf(segs: seq<GlyphOutlineSegment>, n: nat, y: u32): seq<GlyphOutlineValue>
    requires n <= |segs|
  {
    if n == 0 then [] else RowOf(segs, n - 1, y) + Contributed(segs, n - 1, y)
  }

  /** A row of a row map, empty when the map has no entry for it. */
  function Lookup(m: map<u32, seq<GlyphOutlineValue>>, y: u32): seq<GlyphOutlineValue> {
    if y in m then m[y] else []
  }

  /** Crossing `v` of row `y` comes from value `v.value` of segment
      `v.segmentId` in that row and carries that segment's traits. */
  predicate TracesTo(segs: seq<GlyphOutlineSegment>, v: GlyphOutlineValue, y: u32)
  {
    0 <= v.segmentId < |segs| && y in segs[v.segmentId].values
    && v.value in segs[v.segmentId].values[y]
    && v == Crossing(segs[v.segmentId], v.segmentId, v.value)
  }

  /** Every crossing of a row comes from one of the segments before `n`,
      and every value any of those segments has in the row is there. */
  lemma {:induction false} RowOfTraces(segs: seq<GlyphOutlineSegment>, n: nat, y: u32)
    requires n <= |segs|
    ensures forall v :: v in RowOf(segs, n, y) ==> TracesTo(segs, v, y) && v.segmentId < n
    ensures forall id, x :: 0 <= id < n && y in segs[id].values && x in segs[id].values[y] ==> Crossing(segs[id], id, x) in RowOf(segs, n, y)
  {
    if n > 0 {
      RowOfTraces(segs, n - 1, y);
      var c := Contributed(segs, n - 1, y);
      assert RowOf(segs, n, y) == RowOf(segs, n - 1, y) + c;
      forall v | v in c
        ensures TracesTo(segs, v, y) && v.segmentId == n - 1
      {
        var k :| 0 <= k < |c| && c[k] == v;
      }
      if y in segs[n - 1].values {
        var xs := segs[n - 1].values[y];
        forall x | x in xs
          ensures Crossing(segs[n - 1], n - 1, x) in c
        {
          var k :| 0 <= k < |xs| && xs[k] == x;
          assert c[k] == Crossing(segs[n - 1], n - 1, x);
        }
      }
    }
  }

  /** Moving key `y` from the keys still to visit to the keys visited. */
  lemma MoveKey(keys: set<u32>, rows: set<u32>, done: set<u32>, y: u32)
    requires rows <= keys && done == keys - rows && y in rows
    ensures rows - {y} <= keys && done + {y} == keys - (rows - {y})
  {
  }

  /** Row `y` of `outline` holds the crossings of the first `n` segments
      in it, for the rows of `done` also those of segment `n`. */
  ghost predicate RowsUpTo(outline: map<u32, seq<GlyphOutlineValue>>, segs: seq<GlyphOutlineSegment>, n: nat, done: set<u32>)
    requires n < |segs| || (n == |segs| && done == {})
  {
    forall y :: Lookup(outline, y) == if y in done then RowOf(segs, n + 1, y) else RowOf(segs, n, y)
  }

  /** Storing row `y` once segment `id`'s crossings are in it (and
      leaving an empty row absent) extends the rows done by `y`. */
  lemma StoreRow(outline: map<u32, seq<GlyphOutlineValue>>, segs: seq<GlyphOutlineSegment>, id: nat, done: set<u32>, y: u32, row: seq<GlyphOutlineValue>)
    requires id < |segs| && y !in done && RowsUpTo(outline, segs, id, done) && NoEmptyRows(outline)
    requires row == Lookup(outline, y) + Contributed(segs, id, y)
    ensures var o := if row == [] then outline else outline[y := row];
      RowsUpTo(o, segs, id, done + {y}) && NoEmptyRows(o)
  {
  }

  /** Once every row of segment `id` is done, the rows hold the first
      `id + 1` segments' crossings. */
  lemma SegmentDone(outline: map<u32, seq<GlyphOutlineValue>>, segs: seq<GlyphOutlineSegment>, id: nat, done: set<u32>)
    requires id < |segs| && done == segs[id].values.Keys && RowsUpTo(outline, segs, id, done)
    ensures RowsUpTo(outline, segs, id + 1, {})
  {
    forall y
      ensures Lookup(outline, y) == RowOf(segs, id + 1, y)
    {
      if y !in done {
        assert Contributed(segs, id, y) == [];
      }
    }
  }

  /** No row of `outline` is empty. */
  predicate NoEmptyRows(outline: map<u32, seq<GlyphOutlineValue>>)
  {
    forall y :: y in outline ==> outline[y] != []
  }

  /** The loop that builds `complete_outline`: for each segment in order
      and each of its rows, its crossings are appended to that row.  Row
      `y` of the result is every segment's crossings in row `y`, in segment
      order, and a row is present only when it has a crossing. */
  method AssembleRows(segs: seq<GlyphOutlineSegment>) returns (outline: map<u32, seq<GlyphOutlineValue>>)
    ensures forall y :: Lookup(outline, y) == RowOf(segs, |segs|, y)
    ensures NoEmptyRows(outline)
  {
    outline := map[];
    var id := 0;
    while id < |segs|
      invariant id <= |segs| && RowsUpTo(outline, segs, id, {}) && NoEmptyRows(outline)
    {
      outline := AddSegment(outline, segs, id);
      id := id + 1;
    }
    assert RowsUpTo(outline, segs, |segs|, {});
  }

  /** The crossings of segment `id`, row by row. */
  method AddSegment(outline: map<u32, seq<GlyphOutlineValue>>, segs: seq<GlyphOutlineSegment>, id: nat) returns (outline': map<u32, seq<GlyphOutlineValue>>)
    requires id < |segs| && RowsUpTo(outline, segs, id, {}) && NoEmptyRows(outline)
    ensures RowsUpTo(outline', segs, id + 1, {})
    ensures NoEmptyRows(outline')
  {
    outline' := outline;
    var rows := segs[id].values.Keys;
    ghost var done: set<u32> := {};
    while rows != {}
      invariant rows <= segs[id].values.Keys && done == segs[id].values.Keys - rows
      invariant RowsUpTo(outline', segs, id, done) && NoEmptyRows(outline')
      decreases rows
    {
      var y :| y in rows;
      outline' := AddRow(outline', segs, id, y, done);
      MoveKey(segs[id].values.Keys, rows, done, y);
      rows := rows - {y};
      done := done + {y};
    }
    SegmentDone(outline', segs, id, done);
  }

  /** The crossings of segment `id` in row `y`, one `push_back` each onto
      `complete_outline[y]`, which comes into being with its first
      crossing. */
  method AddRow(outline: map<u32, seq<GlyphOutlineValue>>, segs: seq<GlyphOutlineSegment>, id: nat, y: u32, ghost done: set<u32>)
    returns (outline': map<u32, seq<GlyphOutlineValue>>)
    requires id < |segs| && y in segs[id].values && y !in done
    requires RowsUpTo(outline, segs, id, done) && NoEmptyRows(outline)
    ensures RowsUpTo(outline', segs, id, done + {y}) && NoEmptyRows(outline')
  {
    var xs := segs[id].values[y];
    var row := Lookup(outline, y);
    var j := 0;
    while j < |xs|
      invariant j <= |xs| && row == Lookup(outline, y) + Contribution(segs, id, y, j)
    {
      var x := Crossing(segs[id], id, xs[j]);
      row := row + [x];
      assert Contribution(segs, id, y, j + 1) == Contribution(segs, id, y, j) + [x];
      j := j + 1;
    }
    outline' := if row == [] then outline else outline[y := row];
    StoreRow(outline, segs, id, done, y, row);
  }

  // ---------------------------------------------------------------------
  // Painting

  /** A pixel of the glyph image. */
  datatype Cell = Cell(x: nat, y: nat)

  /** `FILL_BLK`: opaque black in b, g, r, a order. */
  const FILL_BLK: Argb32 := Argb32(0x00, 0x00, 0x00, 0xFF)

  /** The 26.6 point (x, y) falls in this pixel. */
  function CellOf(x: u32, y: u32): Cell {
    Cell(x / 64, y / 64)
  }

  /** `p` is `base` with exactly the cells of `painted` set to black. */
  ghost predicate PaintedOver(p: seq<Argb32>, w: nat, h: nat, base: seq<Argb32>, painted: set<Cell>)
  {
    forall x: nat, y: nat :: x < w && y < h ==> At(p, w, x, y) == if Cell(x, y) in painted then FILL_BLK else At(base, w, x, y)
  }

  /** Painting over a painted image paints the union. */
  lemma PaintedOverTwice(p1: seq<Argb32>, p2: seq<Argb32>, base: seq<Argb32>, w: nat, h: nat, a: set<Cell>, b: set<Cell>)
    requires PaintedOver(p1, w, h, base, a) && PaintedOver(p2, w, h, p1, b)
    ensures PaintedOver(p2, w, h, base, a + b)
  {
  }

  /** `glyph.image[{x, y}] = FILL_BLK` for a cell of the image. */
  method Paint(image: BitmapImage, c: Cell, ghost base: seq<Argb32>, ghost painted: set<Cell>) returns (ghost painted': set<Cell>)
    requires image.Valid() && c.x < image.width && c.y < image.height
    requires PaintedOver(image.pixels, image.width, image.height, base, painted)
    modifies image
    ensures image.Valid() && image.width == old(image.width) && image.height == old(image.height)
    ensures painted' == painted + {c}
    ensures PaintedOver(image.pixels, image.width, image.height, base, painted')
  {
    image.SetPixelAt(IVec2(c.x, c.y), FILL_BLK);
    painted' := painted + {c};
  }

  // ---------------------------------------------------------------------
  // Stroking (`render_outline`)

  /** The cells the first `k` crossings of row `y` fall in. */
  function RowStroke(y: u32, xs: seq<GlyphValue>, k: nat): set<Cell>
    requires k <= |xs|
  {
    set i | 0 <= i < k :: CellOf(xs[i].f26, y)
  }

  /** The cells the crossings of segment `seg` in the rows of `ys` fall in. */
  function ValueStroke(seg: GlyphOutlineSegment, ys: set<u32>): set<Cell> {
    set y, i | y in ys && y in seg.values && 0 <= i < |seg.values[y]| :: CellOf(seg.values[y][i].f26, y)
  }

  /** The cells stroked for one segment: its two end points and each of
      its crossings. */
  function SegmentStroke(seg: GlyphOutlineSegment): set<Cell> {
    {CellOf(seg.start.x, seg.start.y), CellOf(seg.end.x, seg.end.y)} + ValueStroke(seg, seg.values.Keys)
  }

  /** The cells stroked for the first `n` segments. */
  function OutlineStroke(segs: seq<GlyphOutlineSegment>, n: nat): set<Cell>
    requires n <= |segs|
  {
    if n == 0 then {} else OutlineStroke(segs, n - 1) + SegmentStroke(segs[n - 1])
  }

  /** Every cell the stroke of `seg` writes lies inside a `w` × `h` image
      (`operator[]` does not check). */
  predicate SegmentFits(seg: GlyphOutlineSegment, w: nat, h: nat)
  {
    seg.start.x / 64 < w && seg.start.y / 64 < h && seg.end.x / 64 < w && seg.end.y / 64 < h
    && forall y :: y in seg.values ==> RowFitsImage(y, seg.values[y], w, h)
  }

  /** Every crossing of row `y` lies on a `w` × `h` image. */
  predicate RowFitsImage(y: u32, xs: seq<GlyphValue>, w: nat, h: nat)
  {
    forall i :: 0 <= i < |xs| ==> xs[i].f26 / 64 < w && y / 64 < h
  }

  /** The outline stroke: the cell of each segment's start and end and of
      every crossing is painted black, and every other pixel is kept. */
  method StrokeOutline(image: BitmapImage, segs: seq<GlyphOutlineSegment>)
    requires image.Valid() && forall id :: 0 <= id < |segs| ==> SegmentFits(segs[id], image.width, image.height)
    modifies image
    ensures image.Valid() && image.width == old(image.width) && image.height == old(image.height)
    ensures PaintedOver(image.pixels, image.width, image.height, old(image.pixels), OutlineStroke(segs, |segs|))
  {
    ghost var base := image.pixels;
    ghost var painted: set<Cell> := {};
    var id := 0;
    while id < |segs|
      invariant id <= |segs| && image.Valid() && image.width == old(image.width) && image.height == old(image.height)
      invariant painted == OutlineStroke(segs, id)
      invariant PaintedOver(image.pixels, image.width, image.height, base, painted)
    {
      painted := StrokeSegment(image, segs[id], base, painted);
      id := id + 1;
    }
  }

  /** The stroke of one segment. */
  method StrokeSegment(image: BitmapImage, seg: GlyphOutlineSegment, ghost base: seq<Argb32>, ghost painted: set<Cell>) returns (ghost painted': set<Cell>)
    requires image.Valid() && SegmentFits(seg, image.width, image.height)
    requires PaintedOver(image.pixels, image.width, image.height, base, painted)
    modifies image
    ensures image.Valid() && image.width == old(image.width) && image.height == old(image.height)
    ensures painted' == painted + SegmentStroke(seg)
    ensures PaintedOver(image.pixels, image.width, image.height, base, painted')
  {
    painted' := Paint(image, CellOf(seg.start.x, seg.start.y), base, painted);
    painted' := Paint(image, CellOf(seg.end.x, seg.end.y), base, painted');
    painted' := StrokeValues(image, seg, base, painted');
  }

  /** The crossings of one segment, row by row. */
  method StrokeValues(image: BitmapImage, seg: GlyphOutlineSegment, ghost base: seq<Argb32>, ghost painted: set<Cell>) returns (ghost painted': set<Cell>)
    requires image.Valid() && SegmentFits(seg, image.width, image.height)
    requires PaintedOver(image.pixels, image.width, image.height, base, painted)
    modifies image
    ensures image.Valid() && image.width == old(image.width) && image.height == old(image.height)
    ensures painted' == painted + ValueStroke(seg, seg.values.Keys)
    ensures PaintedOver(image.pixels, image.width, image.height, base, painted')
  {
    painted' := painted;
    var rows := seg.values.Keys;
    ghost var done: set<u32> := {};
    while rows != {}
      invariant rows <= seg.values.Keys && done == seg.values.Keys - rows
      invariant image.Valid() && image.width == old(image.width) && image.height == old(image.height)
      invariant painted' == painted + ValueStroke(seg, done)
      invariant PaintedOver(image.pixels, image.width, image.height, base, painted')
      decreases rows
    {
      var y :| y in rows;
      painted' := StrokeRow(image, y, seg.values[y], base, painted');
      ValueStrokeAdd(seg, done, y);
      MoveKey(seg.values.Keys, rows, done, y);
      rows := rows - {y};
      done := done + {y};
    }
  }

  /** Adding a row to the rows stroked adds that row's cells. */
  lemma ValueStrokeAdd(seg: GlyphOutlineSegment, done: set<u32>, y: u32)
    requires y in seg.values
    ensures ValueStroke(seg, done + {y}) == ValueStroke(seg, done) + RowStroke(y, seg.values[y], |seg.values[y]|)
  {
    forall c | c in ValueStroke(seg, done + {y})
      ensures c in ValueStroke(seg, done) + RowStroke(y, seg.values[y], |seg.values[y]|)
    {
      var z, i :| z in done + {y} && z in seg.values && 0 <= i < |seg.values[z]| && c == CellOf(seg.values[z][i].f26, z);
      if z != y {
        assert c in ValueStroke(seg, done);
      }
    }
  }

  /** The crossings of one row of a segment. */
  method StrokeRow(image: BitmapImage, y: u32, xs: seq<GlyphValue>, ghost base: seq<Argb32>, ghost painted: set<Cell>) returns (ghost painted': set<Cell>)
    requires image.Valid() && RowFitsImage(y, xs, image.width, image.height)
    requires PaintedOver(image.pixels, image.width, image.height, base, painted)
    modifies image
    ensures image.Valid() && image.width == old(image.width) && image.height == old(image.height)
    ensures painted' == painted + RowStroke(y, xs, |xs|)
    ensures PaintedOver(image.pixels, image.width, image.height, base, painted')
  {
    painted' := painted;
    var i := 0;
    while i < |xs|
      invariant i <= |xs| && image.Valid() && image.width == old(image.width) && image.height == old(image.height)
      invariant painted' == painted + RowStroke(y, xs, i)
      invariant PaintedOver(image.pixels, image.width, image.height, base, painted')
    {
      painted' := Paint(image, CellOf(xs[i].f26, y), base, painted');
      assert RowStroke(y, xs, i + 1) == RowStroke(y, xs, i) + {CellOf(xs[i].f26, y)};
      i := i + 1;
    }
  }
}
