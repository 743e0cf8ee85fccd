/** `bitmap_string`: one glyph bitmap per character of a string, placed
    side by side on one white canvas.  Glyph `k` starts at the column given
    by the widths of the glyphs before it, and every glyph sits on row 0. */
module GlyphString {
  import opened Util
  import opened Pixels
  import opened Canvas
  import opened Bitmap

  /** The arguments of `font_face::get_glyph_bitmap` other than the point
      size: the code point and the two rendering switches. */
  datatype GlyphRequest = GlyphRequest(unicode: u16, renderOutline: bool, renderInside: bool)

  /** The `uint16_t` a wide character is cast to. */
  function CodeUnit(c: char): (r: u16)
    ensures (c as int) < 0x1_0000 ==> r == c as int
  {
    (c as int) % 0x1_0000
  }

  /** Every glyph image has as many pixels as its width times its height. */
  predicate AllWf(gs: seq<BitmapGlyph>)
  {
    forall k :: 0 <= k < |gs| ==> gs[k].image.Wf()
  }

  /** The column where glyph `k` starts: the total width of the glyphs
      before it (`Offset(gs, |gs|)` is the width of them all). */
  function Offset(gs: seq<BitmapGlyph>, k: nat): nat
    requires k <= |gs|
  {
    if k == 0 then 0 else Offset(gs, k - 1) + gs[k - 1].image.width
  }

  /** The tallest of the first `n` glyph images: none of them is taller,
      and when there is one, one of them is this tall. */
  function MaxHeight(gs: seq<BitmapGlyph>, n: nat): (r: nat)
    requires n <= |gs|
    ensures forall k :: 0 <= k < n ==> gs[k].image.height <= r
    ensures n == 0 ==> r == 0
    ensures n > 0 ==> exists k :: 0 <= k < n && gs[k].image.height == r
  {
    if n == 0 then 0
    else
      var m := MaxHeight(gs, n - 1);
      var t := gs[n - 1].image.height;
      if m < t then t else m
  }

  /** Glyph `k` ends within the first `n` glyphs' total width. */
  lemma {:induction false} OffsetWithin(gs: seq<BitmapGlyph>, k: nat, n: nat)
    requires k < n <= |gs|
    ensures Offset(gs, k) + gs[k].image.width <= Offset(gs, n)
    decreases n
  {
    if k < n - 1 {
      OffsetWithin(gs, k, n - 1);
    }
  }

  /** Fewer glyphs are no taller. */
  lemma PrefixHeight(gs: seq<BitmapGlyph>, n: nat, m: nat)
    requires n <= m <= |gs|
    ensures MaxHeight(gs, n) <= MaxHeight(gs, m)
  {
    if n > 0 {
      var j :| 0 <= j < n && gs[j].image.height == MaxHeight(gs, n);
    }
  }

  /** The image `m_combine_bitmap_glyphs` is meant to build from the first
      `n` glyphs: a white `w` × `h` canvas with each glyph pasted in turn
      at (its offset, 0). */
  ghost function Combined(gs: seq<BitmapGlyph>, n: nat, w: nat, h: nat): (r: seq<Argb32>)
    requires n <= |gs|
    ensures |r| == w * h
  {
    if n == 0 then Fill(w * h, WHITE)
    else
      var g := gs[n - 1].image;
      Pasted(g.pixels, g.width, g.height, Combined(gs, n - 1, w, h), w, h, Offset(gs, n - 1), 0)
  }

  /** Glyph `k` covers canvas pixel (x, y). */
  predicate Covers(gs: seq<BitmapGlyph>, k: nat, x: nat, y: nat)
    requires k < |gs|
  {
    Offset(gs, k) <= x < Offset(gs, k) + gs[k].image.width && y < gs[k].image.height
  }

  /** Pixel (x, y) of the combined image is glyph `n - 1`'s pixel where
      that glyph covers it, and the pixel of the earlier glyphs' image
      elsewhere. */
  lemma AtCombinedLast(gs: seq<BitmapGlyph>, n: nat, w: nat, h: nat, x: nat, y: nat)
    requires 0 < n <= |gs| && x < w && y < h
    ensures At(Combined(gs, n, w, h), w, x, y)
      == if Covers(gs, n - 1, x, y)
         then At(gs[n - 1].image.pixels, gs[n - 1].image.width, x - Offset(gs, n - 1), y)
         else At(Combined(gs, n - 1, w, h), w, x, y)
  {
    var g := gs[n - 1].image;
    AtPasted(g.pixels, g.width, g.height, Combined(gs, n - 1, w, h), w, h, Offset(gs, n - 1), 0, x, y);
  }

  /** Pixel (x, y) of glyph `k` lands at (offset of `k` + x, y). */
  lemma {:induction false} GlyphPixelLands(gs: seq<BitmapGlyph>, n: nat, w: nat, h: nat, k: nat, x: nat, y: nat)
    requires n <= |gs| && Offset(gs, n) <= w && MaxHeight(gs, n) <= h
    requires k < n && x < gs[k].image.width && y < gs[k].image.height
    ensures At(Combined(gs, n, w, h), w, Offset(gs, k) + x, y) == At(gs[k].image.pixels, gs[k].image.width, x, y)
    decreases n
  {
    OffsetWithin(gs, k, n);
    AtCombinedLast(gs, n, w, h, Offset(gs, k) + x, y);
    if k < n - 1 {
      OffsetWithin(gs, k, n - 1);
      PrefixHeight(gs, n - 1, n);
      GlyphPixelLands(gs, n - 1, w, h, k, x, y);
    }
  }

  /** A pixel that no glyph covers keeps the white of the new canvas. */
  lemma {:induction false} UncoveredStaysWhite(gs: seq<BitmapGlyph>, n: nat, w: nat, h: nat, x: nat, y: nat)
    requires n <= |gs| && Offset(gs, n) <= w && MaxHeight(gs, n) <= h && x < w && y < h
    requires forall k :: 0 <= k < n ==> !Covers(gs, k, x, y)
    ensures At(Combined(gs, n, w, h), w, x, y) == WHITE
    decreases n
  {
    if n == 0 {
      AtFill(w, h, WHITE, x, y);
    } else {
      AtCombinedLast(gs, n, w, h, x, y);
      PrefixHeight(gs, n - 1, n);
      UncoveredStaysWhite(gs, n - 1, w, h, x, y);
    }
  }

  /** The first loop of `m_combine_bitmap_glyphs`: the width of the
      canvas is the sum of the glyph widths in `uint32_t` arithmetic, its
      height the tallest glyph. */
  method MeasureGlyphs(gs: seq<BitmapGlyph>) returns (width: u32, height: u32)
    ensures width == U32(Offset(gs, |gs|)) && height == MaxHeight(gs, |gs|)
  {
    width, height := 0, 0;
    var i := 0;
    while i < |gs|
      invariant i <= |gs| && width == U32(Offset(gs, i)) && height == MaxHeight(gs, i)
    {
      U32Add(Offset(gs, i), gs[i].image.width);
      width := U32(width + gs[i].image.width);
      if height < gs[i].image.height {
        height := gs[i].image.height;
      }
      i := i + 1;
    }
  }

  /** A glyph with columns but no rows: it has no pixels to copy, so
      `m_combine_bitmap_glyphs` leaves its pen where it was. */
  predicate Flat(g: Picture)
  {
    g.width > 0 && g.height == 0
  }

  /** The column `image_pen_x` holds when glyph `k` starts.  It is reset
      to the glyph's offset only at a row change, so it carries over from
      the glyph before: a glyph of several rows leaves it at its own end, a
      one-row glyph moves it on by its width from where it began, and a
      glyph without pixels leaves it alone.  It never passes the offset. */
  function PenStart(gs: seq<BitmapGlyph>, k: nat): (r: nat)
    requires k <= |gs|
    ensures r <= Offset(gs, k)
  {
    if k == 0 then 0
    else
      var g := gs[k - 1].image;
      if g.width == 0 || g.height == 0 then PenStart(gs, k - 1)
      else if g.height == 1 then PenStart(gs, k - 1) + g.width
      else Offset(gs, k - 1) + g.width
  }

  /** With no flat glyph before glyph `k`, the carried pen stands at the
      glyph's offset. */
  lemma {:induction false} PenOnTrack(gs: seq<BitmapGlyph>, k: nat)
    requires k <= |gs| && forall j :: 0 <= j < k ==> !Flat(gs[j].image)
    ensures PenStart(gs, k) == Offset(gs, k)
  {
    if k > 0 {
      PenOnTrack(gs, k - 1);
    }
  }

  /** The image `m_combine_bitmap_glyphs` draws from the first `n` glyphs:
      on the white canvas, each glyph's bottom row is copied from the
      carried pen and its other rows from its offset, one row up. */
  ghost function Drawn(gs: seq<BitmapGlyph>, n: nat, w: nat, h: nat): (r: seq<Argb32>)
    requires n <= |gs| && AllWf(gs)
    ensures |r| == w * h
  {
    if n == 0 then Fill(w * h, WHITE)
    else
      var g := gs[n - 1].image;
      var prev := Drawn(gs, n - 1, w, h);
      if g.height == 0 then prev else DrawnGlyph(g, prev, w, h, PenStart(gs, n - 1), Offset(gs, n - 1))
  }

  /** A glyph with rows has its bottom row first in its pixels, then the
      rest. */
  lemma BottomRow(g: Picture)
    requires g.Wf() && g.height > 0
    ensures g.width <= |g.pixels| && |g.pixels| - g.width == g.width * (g.height - 1)
  {
    assert g.width * (g.height - 1) == g.width * g.height - g.width;
  }

  /** `prev` with the bottom row of `g` pasted at (pen, 0) and the rows
      above it at (offset, 1). */
  ghost function DrawnGlyph(g: Picture, prev: seq<Argb32>, w: nat, h: nat, pen: nat, offset: nat): (r: seq<Argb32>)
    requires g.Wf() && g.height > 0
    ensures |r| == w * h
  {
    BottomRow(g);
    var bottom := Pasted(g.pixels[..g.width], g.width, 1, prev, w, h, pen, 0);
    Pasted(g.pixels[g.width..], g.width, g.height - 1, bottom, w, h, offset, 1)
  }

  /** The bottom row of `q` and the rows above it read as `q` does. */
  lemma AtRows(q: seq<Argb32>, qw: nat, qh: nat, x: nat, y: nat)
    requires |q| == qw * qh && x < qw && y < qh
    ensures y == 0 ==> At(q[..qw], qw, x, 0) == At(q, qw, x, 0)
    ensures y > 0 ==> At(q[qw..], qw, x, y - 1) == At(q, qw, x, y)
  {
    CellBound(qw, qh, x, y);
    if y > 0 {
      CellBound(qw, qh - 1, x, y - 1);
      assert qw * (y - 1) + qw == qw * y;
    }
  }

  /** Pasting the bottom row of `q` and then the rows above it at the same
      column pastes all of `q`. */
  lemma PasteByRows(q: seq<Argb32>, qw: nat, qh: nat, base: seq<Argb32>, w: nat, h: nat, dx: nat)
    requires 0 < qh && |q| == qw * qh && |base| == w * h
    ensures Pasted(q[qw..], qw, qh - 1, Pasted(q[..qw], qw, 1, base, w, h, dx, 0), w, h, dx, 1)
         == Pasted(q, qw, qh, base, w, h, dx, 0)
  {
    var lhs := Pasted(q[qw..], qw, qh - 1, Pasted(q[..qw], qw, 1, base, w, h, dx, 0), w, h, dx, 1);
    var rhs := Pasted(q, qw, qh, base, w, h, dx, 0);
    forall x: nat, y: nat | x < w && y < h
      ensures At(lhs, w, x, y) == At(rhs, w, x, y)
    {
      PasteByRowsAt(q, qw, qh, base, w, h, dx, x, y);
    }
    SameImage(lhs, rhs, w, h);
  }

  /** `PasteByRows` at one pixel. */
  lemma PasteByRowsAt(q: seq<Argb32>, qw: nat, qh: nat, base: seq<Argb32>, w: nat, h: nat, dx: nat, x: nat, y: nat)
    requires 0 < qh && |q| == qw * qh && |base| == w * h && x < w && y < h
    ensures At(Pasted(q[qw..], qw, qh - 1, Pasted(q[..qw], qw, 1, base, w, h, dx, 0), w, h, dx, 1), w, x, y)
         == At(Pasted(q, qw, qh, base, w, h, dx, 0), w, x, y)
  {
    var bottom := Pasted(q[..qw], qw, 1, base, w, h, dx, 0);
    AtPasted(q[qw..], qw, qh - 1, bottom, w, h, dx, 1, x, y);
    AtPasted(q[..qw], qw, 1, base, w, h, dx, 0, x, y);
    AtPasted(q, qw, qh, base, w, h, dx, 0, x, y);
    if InBlock(x, y, dx, 0, qw, qh) {
      AtRows(q, qw, qh, x - dx, y);
    }
  }

  /** With no flat glyph among them, the glyphs are drawn exactly side by
      side: the carried pen draws `Combined`. */
  lemma {:induction false} DrawnSideBySide(gs: seq<BitmapGlyph>, n: nat, w: nat, h: nat)
    requires n <= |gs| && AllWf(gs) && forall j :: 0 <= j < n ==> !Flat(gs[j].image)
    ensures Drawn(gs, n, w, h) == Combined(gs, n, w, h)
  {
    if n > 0 {
      DrawnSideBySide(gs, n - 1, w, h);
      PenOnTrack(gs, n - 1);
      var g := gs[n - 1].image;
      if g.height > 0 {
        PasteByRows(g.pixels, g.width, g.height, Combined(gs, n - 1, w, h), w, h, Offset(gs, n - 1));
      } else {
        assert g.width == 0;
        SameImage(Combined(gs, n, w, h), Combined(gs, n - 1, w, h), w, h) by {
          forall x: nat, y: nat | x < w && y < h
            ensures At(Combined(gs, n, w, h), w, x, y) == At(Combined(gs, n - 1, w, h), w, x, y)
          {
            AtCombinedLast(gs, n, w, h, x, y);
          }
        }
      }
    }
  }

  /** A two-column glyph without rows followed by a one-pixel glyph: the
      pixel is drawn in column 0, over where the flat glyph's columns
      begin, and not at its offset 2, which stays white. */
  lemma FlatGlyphShiftsNext()
    ensures var black := Argb32(0, 0, 0, 0xFF);
            var gs := [BitmapGlyph(0, 0, Picture(2, 0, [])), BitmapGlyph(1, 0, Picture(1, 1, [black]))];
            && At(Drawn(gs, 2, 3, 1), 3, 0, 0) == black && At(Drawn(gs, 2, 3, 1), 3, 2, 0) == WHITE
            && At(Combined(gs, 2, 3, 1), 3, 0, 0) == WHITE && At(Combined(gs, 2, 3, 1), 3, 2, 0) == black
  {
    var black := Argb32(0, 0, 0, 0xFF);
    var gs := [BitmapGlyph(0, 0, Picture(2, 0, [])), BitmapGlyph(1, 0, Picture(1, 1, [black]))];
    assert PenStart(gs, 1) == 0 && Offset(gs, 1) == 2;
    var one := gs[1].image;
    var bottom := Pasted(one.pixels[..1], 1, 1, Drawn(gs, 1, 3, 1), 3, 1, 0, 0);
    assert Drawn(gs, 1, 3, 1) == Fill(3, WHITE);
    AtPasted(one.pixels[1..], 1, 0, bottom, 3, 1, 2, 1, 0, 0);
    AtPasted(one.pixels[1..], 1, 0, bottom, 3, 1, 2, 1, 2, 0);
    AtPasted(one.pixels[..1], 1, 1, Fill(3, WHITE), 3, 1, 0, 0, 0, 0);
    AtPasted(one.pixels[..1], 1, 1, Fill(3, WHITE), 3, 1, 0, 0, 2, 0);
    AtFill(3, 1, WHITE, 2, 0);
    AtCombinedLast(gs, 2, 3, 1, 0, 0);
    AtCombinedLast(gs, 2, 3, 1, 2, 0);
    AtCombinedLast(gs, 1, 3, 1, 0, 0);
    AtFill(3, 1, WHITE, 0, 0);
  }

  /** One glyph of `m_combine_bitmap_glyphs`' second loop: its bottom row
      is copied from the pen `pen`, each row above it from the glyph's
      offset `traveled`, one row higher; the pen ends after the last pixel
      copied. */
  method DrawGlyph(p: seq<Argb32>, w: u32, h: u32, gs: seq<BitmapGlyph>, k: nat, pen: u32, traveled: u32)
    returns (r: seq<Argb32>, pen': u32)
    requires k < |gs| && AllWf(gs) && |p| == w * h < 0x1_0000_0000
    requires pen == PenStart(gs, k) && traveled == Offset(gs, k)
    requires Offset(gs, k) + gs[k].image.width <= w && gs[k].image.height <= h
    requires p == Drawn(gs, k, w, h)
    ensures r == Drawn(gs, k + 1, w, h) && pen' == PenStart(gs, k + 1)
  {
    var g := gs[k].image;
    r, pen' := p, pen;
    if g.height > 0 {
      BottomRow(g);
      r := PasteBlock(r, w, h, g.pixels[..g.width], g.width, 1, IVec2(pen, 0));
      r := PasteBlock(r, w, h, g.pixels[g.width..], g.width, g.height - 1, IVec2(traveled, 1));
      if g.width > 0 {
        pen' := if g.height == 1 then pen + g.width else traveled + g.width;
      }
    }
  }

  /** `m_combine_bitmap_glyphs`: a white canvas as wide as all glyphs and
      as tall as the tallest, onto which each glyph is copied pixel by
      pixel.  Its bottom row goes from the pen carried over from the glyph
      before, its other rows from the glyph's offset; with no flat glyph
      that lays the glyphs side by side. */
  method CombineBitmapGlyphs(gs: seq<BitmapGlyph>) returns (image: BitmapImage)
    requires AllWf(gs) && Offset(gs, |gs|) < 0x1_0000_0000 && Offset(gs, |gs|) * MaxHeight(gs, |gs|) < 0x1_0000_0000
    ensures fresh(image) && image.Valid()
    ensures image.width == Offset(gs, |gs|) && image.height == MaxHeight(gs, |gs|)
    ensures image.pixels == Drawn(gs, |gs|, image.width, image.height)
    ensures (forall k :: 0 <= k < |gs| ==> !Flat(gs[k].image)) ==> image.pixels == Combined(gs, |gs|, image.width, image.height)
  {
    var w, h := MeasureGlyphs(gs);
    image := new BitmapImage.Sized(w, h, WHITE);
    var traveled: u32 := 0;
    var pen: u32 := 0;
    var k := 0;
    while k < |gs|
      invariant k <= |gs| && traveled == Offset(gs, k) && pen == PenStart(gs, k)
      invariant image.Valid() && image.width == w && image.height == h
      invariant image.pixels == Drawn(gs, k, w, h)
      modifies image
    {
      var g := gs[k].image;
      OffsetWithin(gs, k, |gs|);
      image.pixels, pen := DrawGlyph(image.pixels, w, h, gs, k, pen, traveled);
      traveled := traveled + g.width;
      k := k + 1;
    }
    if forall k :: 0 <= k < |gs| ==> !Flat(gs[k].image) {
      DrawnSideBySide(gs, |gs|, w, h);
    }
  }

  /** The glyphs requested for `text`: one per character, in order, with
      outline and interior rendering both on. */
  method RenderGlyphs(text: string, render: GlyphRequest -> BitmapGlyph) returns (gs: seq<BitmapGlyph>)
    ensures |gs| == |text|
    ensures forall i :: 0 <= i < |text| ==> gs[i] == render(GlyphRequest(CodeUnit(text[i]), true, true))
  {
    gs := [];
    var i := 0;
    while i < |text|
      invariant i <= |text| && |gs| == i
      invariant forall j :: 0 <= j < i ==> gs[j] == render(GlyphRequest(CodeUnit(text[j]), true, true))
    {
      gs := gs + [render(GlyphRequest(CodeUnit(text[i]), true, true))];
      i := i + 1;
    }
  }

  /** The glyphs of `text`, as a value. */
  function GlyphsOf(text: string, render: GlyphRequest -> BitmapGlyph): (gs: seq<BitmapGlyph>)
    ensures |gs| == |text|
  {
    seq(|text|, i requires 0 <= i < |text| => render(GlyphRequest(CodeUnit(text[i]), true, true)))
  }

  class BitmapString {
    var text: string
    var bitmap: BitmapImage

    /** `bitmap_string()`: no text and an empty image. */
    constructor ()
      ensures text == [] && fresh(bitmap) && bitmap.width == 0 && bitmap.height == 0 && bitmap.pixels == []
    {
      text := [];
      bitmap := new BitmapImage();
    }

    /** `bitmap_string(str, pointsize, face)`: renders each character with
        `render` (the face at the point size) and combines the glyphs. */
    constructor Rendered(str: string, render: GlyphRequest -> BitmapGlyph)
      requires AllWf(GlyphsOf(str, render))
      requires Offset(GlyphsOf(str, render), |str|) < 0x1_0000_0000
      requires Offset(GlyphsOf(str, render), |str|) * MaxHeight(GlyphsOf(str, render), |str|) < 0x1_0000_0000
      ensures text == str && fresh(bitmap) && bitmap.Valid()
      ensures bitmap.width == Offset(GlyphsOf(str, render), |str|) && bitmap.height == MaxHeight(GlyphsOf(str, render), |str|)
      ensures bitmap.pixels == Drawn(GlyphsOf(str, render), |str|, bitmap.width, bitmap.height)
      ensures (forall k :: 0 <= k < |str| ==> !Flat(GlyphsOf(str, render)[k].image))
              ==> bitmap.pixels == Combined(GlyphsOf(str, render), |str|, bitmap.width, bitmap.height)
    {
      text := str;
      var gs := RenderGlyphs(str, render);
      assert gs == GlyphsOf(str, render);
      var image := CombineBitmapGlyphs(gs);
      bitmap := image;
    }
  }
}
