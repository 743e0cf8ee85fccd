/** The integer part of `get_glyph_bitmap` once the outline is segmented:
    the crossings of all segments are gathered row by row and each row is
    sorted, then the outline is stroked and the interior filled on the
    glyph image, each only when asked for.  The sort compares the floating
    point `vectorial` keys; it is a parameter here. */
module Rasterizer {
  import opened Util
  import opened Pixels
  import opened FontTypes
  import opened Bitmap
  import opened Outline
  import opened InteriorFill

  /** Every crossing of every segment lets the fill loop stay inside a
      `w` × `h` image. */
  predicate CrossingsFit(segs: seq<GlyphOutlineSegment>, w: nat, h: nat) {
    forall id, y, i :: 0 <= id < |segs| && y in segs[id].values && 0 <= i < |segs[id].values[y]|
      ==> SpanFits(segs[id].values[y][i].f26, y, w, h)
  }

  /** `sortRow` only reorders a row. */
  ghost predicate Reorders(sortRow: seq<GlyphOutlineValue> -> seq<GlyphOutlineValue>) {
    forall r :: multiset(sortRow(r)) == multiset(r)
  }

  /** A reordering of the crossings the segments give row `y` names
      segments of the outline only. */
  lemma ReorderedRowIds(segs: seq<GlyphOutlineSegment>, y: u32, row: seq<GlyphOutlineValue>)
    requires multiset(row) == multiset(RowOf(segs, |segs|, y))
    ensures RowIds(row, segs)
  {
    RowOfTraces(segs, |segs|, y);
    forall k | 0 <= k < |row|
      ensures 0 <= row[k].segmentId < |segs|
    {
      assert row[k] in multiset(row);
      assert row[k] in RowOf(segs, |segs|, y);
    }
  }

  /** A reordering of the crossings the segments give row `y` fits the
      image whenever every crossing of every segment does. */
  lemma ReorderedRowFits(segs: seq<GlyphOutlineSegment>, y: u32, row: seq<GlyphOutlineValue>, w: nat, h: nat)
    requires CrossingsFit(segs, w, h) && multiset(row) == multiset(RowOf(segs, |segs|, y))
    ensures RowFits(y, row, segs, w, h)
  {
    RowOfTraces(segs, |segs|, y);
    forall k | 0 <= k < |row|
      ensures 0 <= row[k].segmentId < |segs| && SpanFits(row[k].value.f26, y, w, h)
    {
      var v := row[k];
      assert v in multiset(row);
      assert v in RowOf(segs, |segs|, y);
      var xs := segs[v.segmentId].values[y];
      var i :| 0 <= i < |xs| && xs[i] == v.value;
    }
  }

  /** The rows after assembly and sorting: row `y` is present exactly when
      some segment crosses it, and holds its crossings in sorted order. */
  predicate SortedRows(sorted: map<u32, seq<GlyphOutlineValue>>, segs: seq<GlyphOutlineSegment>,
                       sortRow: seq<GlyphOutlineValue> -> seq<GlyphOutlineValue>)
  {
    forall y :: (y in sorted <==> RowOf(segs, |segs|, y) != [])
      && (y in sorted ==> sorted[y] == sortRow(RowOf(segs, |segs|, y)))
  }

  /** Assembly, sorting, stroking (`render_outline`) and interior fill
      (`render_inside`) on the glyph image: the cells painted are the
      outline's stroke and the sorted rows' interior, and every other pixel
      is kept. */
  method RasterizeOutline(image: BitmapImage, segs: seq<GlyphOutlineSegment>,
                          sortRow: seq<GlyphOutlineValue> -> seq<GlyphOutlineValue>,
                          renderOutline: bool, renderInside: bool)
    returns (sorted: map<u32, seq<GlyphOutlineValue>>)
    requires image.Valid() && Reorders(sortRow)
    requires renderOutline ==> forall id :: 0 <= id < |segs| ==> SegmentFits(segs[id], image.width, image.height)
    requires renderInside ==> CrossingsFit(segs, image.width, image.height)
    modifies image
    ensures image.Valid() && image.width == old(image.width) && image.height == old(image.height)
    ensures SortedRows(sorted, segs, sortRow) && OutlineIds(sorted, segs)
    ensures PaintedOver(image.pixels, image.width, image.height, old(image.pixels),
      (if renderOutline then OutlineStroke(segs, |segs|) else {})
      + (if renderInside then InsideFill(sorted, segs) else {}))
  {
    var outline := AssembleRows(segs);
    sorted := map y | y in outline :: sortRow(outline[y]);
    forall y | y in sorted
      ensures RowIds(sorted[y], segs)
    {
      ReorderedRowIds(segs, y, sorted[y]);
    }
    ghost var base := image.pixels;
    ghost var stroked: set<Cell> := {};
    if renderOutline {
      StrokeOutline(image, segs);
      stroked := OutlineStroke(segs, |segs|);
    }
    if renderInside {
      ghost var middle := image.pixels;
      forall y | y in sorted
        ensures RowFits(y, sorted[y], segs, image.width, image.height)
      {
        ReorderedRowFits(segs, y, sorted[y], image.width, image.height);
      }
      FillInside(image, sorted, segs);
      PaintedOverTwice(middle, image.pixels, base, image.width, image.height, stroked, InsideFill(sorted, segs));
    }
  }
}
