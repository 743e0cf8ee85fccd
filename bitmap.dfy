/** `bitmap_image`: a row-major BGRA canvas whose in-place operations
    rewrite its pixel vector and dimensions. */
module Bitmap {
  import opened Util
  import opened Pixels
  import opened Canvas
  import opened BmpFile

  /** `crop`'s guard: the width and height left over, computed in `int`
      from the casts of the `uint32_t` operands, are both non-negative. */
  predicate CropAccepted(w: u32, h: u32, fromRight: u32, fromLeft: u32, fromTop: u32, fromBottom: u32)
  {
    I32(h) - I32(fromTop) - I32(fromBottom) >= 0 && I32(w) - I32(fromLeft) - I32(fromRight) >= 0
  }

  /** Within `int` range the guard accepts exactly the crops that fit. */
  lemma CropAcceptedIff(w: u32, h: u32, fromRight: u32, fromLeft: u32, fromTop: u32, fromBottom: u32)
    requires w < 0x8000_0000 && h < 0x8000_0000
    requires fromRight < 0x8000_0000 && fromLeft < 0x8000_0000 && fromTop < 0x8000_0000 && fromBottom < 0x8000_0000
    ensures CropAccepted(w, h, fromRight, fromLeft, fromTop, fromBottom) <==> fromTop + fromBottom <= h && fromLeft + fromRight <= w
  {
  }

  /** `translate_region`'s first check, on the `uint32_t` height and width
      of the region (which wrap when a corner is reversed): the region is
      taller or wider than the image, or ends past its edge. */
  predicate RegionRefused(w: u32, h: u32, bl: IVec2, tr: IVec2)
  {
    U32(tr.y - bl.y) > h || U32(tr.x - bl.x) > w || tr.x > w || tr.y > h
  }

  /** On an image less than 2^31 wide and tall, with the bottom-left corner
      below 2^31, every region the first check lets through has its corners
      in order: a reversed corner wraps the width or height past the image. */
  lemma ReversedCornersRefused(w: u32, h: u32, bl: IVec2, tr: IVec2)
    requires w < 0x8000_0000 && h < 0x8000_0000 && bl.x < 0x8000_0000 && bl.y < 0x8000_0000
    ensures !RegionRefused(w, h, bl, tr) ==> bl.x <= tr.x && bl.y <= tr.y
  {
  }

  /** The pixels after `translate_region` moves the region from `bl` to
      `tr` (exclusive) of the `w` × `h` image `p` right, then left, then up,
      then down, each move applied to the same region; a failed check
      returns at once, keeping the moves already made. */
  ghost function Translated(p: seq<Argb32>, w: u32, h: u32, bl: IVec2, tr: IVec2, right: u32, left: u32, up: u32, down: u32): (r: seq<Argb32>)
    requires |p| == w * h
    ensures |r| == |p|
  {
    if RegionRefused(w, h, bl, tr) then p
    else if right != 0 && tr.x + right > w then p
    else
      var p1 := if right != 0 then Moved(p, w, h, bl, tr, right, 0) else p;
      if left != 0 && bl.x < left then p1
      else
        var p2 := if left != 0 then Moved(p1, w, h, bl, tr, -(left as int), 0) else p1;
        if up != 0 && tr.y + up > h then p2
        else
          var p3 := if up != 0 then Moved(p2, w, h, bl, tr, 0, up) else p2;
          if down != 0 && bl.y < down then p3
          else if down != 0 then Moved(p3, w, h, bl, tr, 0, -(down as int))
          else p3
  }

  /** Translating a region right by `n` and then translating the region
      where it landed left by `n` gives every cell of the region back. */
  lemma TranslatedRightThenLeft(p: seq<Argb32>, w: u32, h: u32, bl: IVec2, tr: IVec2, n: u32, x: nat, y: nat)
    requires |p| == w * h && bl.x <= tr.x && bl.y <= tr.y && tr.x + n <= w && tr.y <= h && InRegion(bl, tr, x, y)
    ensures At(Translated(Translated(p, w, h, bl, tr, n, 0, 0, 0), w, h, IVec2(bl.x + n, bl.y), IVec2(tr.x + n, tr.y), 0, n, 0, 0), w, x, y)
            == At(p, w, x, y)
  {
    if n != 0 {
      MovedBack(p, w, h, bl, tr, n, 0, x, y);
    }
  }

  /** `swap_regions` names the block with the smaller origin first when
      one origin lies strictly right of and above the other. */
  function SwapOrder(o1: IVec2, o2: IVec2): (r: (IVec2, IVec2))
    ensures r == (o1, o2) || r == (o2, o1)
    ensures !(r.0.x > r.1.x && r.0.y > r.1.y)
  {
    if o1.x > o2.x && o1.y > o2.y then (o2, o1) else (o1, o2)
  }

  /** The checks `swap_regions` makes before exchanging two `sw` × `sh`
      blocks: each block ends strictly inside the image, and the first block
      (after ordering) does not reach both past the second's left column and
      past its bottom row. */
  predicate SwapAccepted(w: u32, h: u32, sw: u32, sh: u32, o1: IVec2, o2: IVec2)
  {
    o1.x + sw < w && o1.y + sh < h && o2.x + sw < w && o2.y + sh < h &&
    var (a, b) := SwapOrder(o1, o2);
    !(a.x + sw > b.x && a.y + sh > b.y)
  }

  /** The overlap test is sound: blocks that pass it share no cell. */
  lemma SwapAcceptedDisjoint(w: u32, h: u32, sw: u32, sh: u32, o1: IVec2, o2: IVec2)
    requires SwapAccepted(w, h, sw, sh, o1, o2)
    ensures Disjoint(o1, o2, sw, sh) && o1.x + sw <= w && o1.y + sh <= h && o2.x + sw <= w && o2.y + sh <= h
  {
  }

  /** The overlap test is not complete: the disjoint 2 × 2 blocks at (4, 0)
      and (0, 1) of a 10 × 10 image are refused. */
  lemma SwapRefusesDisjoint()
    ensures Disjoint(IVec2(4, 0), IVec2(0, 1), 2, 2) && !SwapAccepted(10, 10, 2, 2, IVec2(4, 0), IVec2(0, 1))
  {
  }

  /** `file` appends exactly `total_size` bytes (122 header bytes and four
      per pixel), and the size fields it writes are
      `total_size` and `raw_size`. */
  lemma FileHasTotalSize(img: BitmapImage)
    requires img.Valid() && |img.pixels| * 4 + 122 < 0x1_0000_0000
    ensures FileSize(|img.pixels|) == img.TotalSize() && DataSize(|img.pixels|) == img.RawSize()
    ensures DATA_OFFSET as int + 4 * |img.pixels| == img.TotalSize() as int
  {
    var n := |img.pixels|;
    assert img.RawSize() as int == n * 4 == DataSize(n) as int;
    assert img.TotalSize() as int == 122 + n * 4 == FileSize(n) as int;
  }


  class BitmapImage {
    var width: u32
    var height: u32
    var pixels: seq<Argb32>

    /** The pixel vector holds `width * height` pixels and its indexes fit
        the `uint32_t` arithmetic of the operations. */
    predicate Valid()
      reads this
    {
      |pixels| == width * height && |pixels| < 0x1_0000_0000
    }

    /** `operator[](ivec2)`: the pixel at (x, y), found through
        `m_get_nth_element_index`, is the row-major pixel. */
    function PixelAt(c: IVec2): (r: Argb32)
      reads this
      requires Valid() && c.x < width && c.y < height
      ensures r == At(pixels, width, c.x, c.y)
    {
      CellBound(width, height, c.x, c.y);
      pixels[NthElementIndex(c, width)]
    }

    /** Writing through `operator[](ivec2)`: pixel (x, y) becomes `v` and
        every other pixel keeps its colour. */
    method SetPixelAt(c: IVec2, v: Argb32)
      requires Valid() && c.x < width && c.y < height
      modifies this
      ensures Valid() && width == old(width) && height == old(height)
      ensures forall x: nat, y: nat :: x < width && y < height ==>
                At(pixels, width, x, y) == if x == c.x && y == c.y then v else At(old(pixels), width, x, y)
    {
      CellBound(width, height, c.x, c.y);
      var k := NthElementIndex(c, width);
      ghost var p0 := pixels;
      pixels := pixels[k := v];
      forall x: nat, y: nat | x < width && y < height
        ensures At(pixels, width, x, y) == if x == c.x && y == c.y then v else At(p0, width, x, y)
      {
        AtUpdate(p0, width, height, c.x, c.y, v, x, y);
      }
    }

    /** `pixel_count`. */
    function PixelCount(): (r: u32)
      reads this
      requires Valid()
      ensures r as int == |pixels|
    {
      |pixels| as u32
    }

    /** `raw_size`: four bytes per pixel, in `uint32_t` arithmetic. */
    function RawSize(): (r: u32)
      reads this
      requires Valid()
      ensures |pixels| < 0x4000_0000 ==> r as int == 4 * |pixels|
    {
      U32(PixelCount() as int * 4)
    }

    /** `total_size`: the two headers and the pixel data, in `uint32_t`
        arithmetic. */
    function TotalSize(): (r: u32)
      reads this
      requires Valid()
      ensures 4 * |pixels| + 122 < 0x1_0000_0000 ==> r as int == 122 + 4 * |pixels|
    {
      U32(122 + RawSize() as int)
    }

    /** `file`: appends the BMP file of the image to `v`, pixel by pixel
        after the two headers. */
    method File(v: seq<u8>) returns (r: seq<u8>)
      requires Valid()
      ensures r == v + HeadersBytes(width, height, FileSize(|pixels|), DataSize(|pixels|)) + PixelsBytes(pixels)
    {
      r := AppendPixels(v + HeadersBytes(width, height, FileSize(|pixels|), DataSize(|pixels|)), pixels);
    }

    /** `bitmap_image()`: the empty image. */
    constructor ()
      ensures width == 0 && height == 0 && pixels == []
      ensures Valid()
    {
      width, height, pixels := 0, 0, [];
    }

    /** `bitmap_image(w, h, c)`: `resize` of a fresh image. */
    constructor Sized(w: u32, h: u32, c: Argb32)
      ensures width == w && height == h && pixels == Fill(U32(w * h), c)
      ensures w * h < 0x1_0000_0000 ==> Valid()
    {
      width, height := w, h;
      pixels := Fill(U32(w * h), c);
    }

    /** `resize`: the old pixels are discarded and `w * h` (in `uint32_t`
        arithmetic) pixels of colour `c` take their place. */
    method Resize(w: u32, h: u32, c: Argb32)
      modifies this
      ensures width == w && height == h && pixels == Fill(U32(w * h), c)
      ensures w * h < 0x1_0000_0000 ==> Valid()
    {
      MulMono(w, 0, h);
      width := w;
      height := h;
      var n := U32(w * h);
      pixels := [];
      pixels := Fill(n, c);
    }

    /** The first loop of `m_delete_region`: a walk over the rectangle from
        `start` to `end` (exclusive), row by row, pushing the index of each
        of the `n` cells it visits. */
    method CollectIndexes(start: IVec2, end: IVec2, n: u32) returns (indexes: seq<u32>)
      requires Valid()
      requires start.x <= end.x <= width && start.y <= end.y <= height
      requires n == (end.x - start.x) * (end.y - start.y)
      ensures forall k: nat :: k < |pixels| ==> (k in indexes <==> k in RectCells(width, start, end, |pixels|))
    {
      var p, w := pixels, width;
      ghost var h := height;
      ghost var bw, bh := end.x - start.x, end.y - start.y;
      MulMono(bw, 0, bh);
      var pos := start;
      indexes := [];
      ghost var xs: seq<int>, ys: seq<int> := [], [];
      var i: u32 := 0;
      while i < n
        invariant i <= n && Collecting(indexes, xs, ys, w, start, end, pos, i)
        invariant i > 0 ==> pos.x > start.x
      {
        if pos.x == end.x {
          CollectingWrap(indexes, xs, ys, w, start, end, pos, i);
          pos := IVec2(start.x, pos.y + 1);
        }
        CollectingStep(indexes, xs, ys, |p|, w, h, start, end, pos, i);
        var j := NthElementIndex(pos, w);
        assert j == w * pos.y + pos.x;
        indexes := indexes + [j];
        xs, ys := xs + [pos.x], ys + [pos.y];
        pos := IVec2(pos.x + 1, pos.y);
        i := i + 1;
      }
      CollectDone(indexes, xs, ys, w, start, end, pos, i, |p|);
    }

    /** `m_delete_region`: collects the indexes of the rectangle from
        `start` to `end` (exclusive), then keeps, in order, the pixels whose
        index is not among them (`std::find`). */
    method DeleteRegion(start: IVec2, end: IVec2, n: u32)
      requires Valid()
      requires start.x <= end.x <= width && start.y <= end.y <= height
      requires n == (end.x - start.x) * (end.y - start.y)
      modifies this
      ensures width == old(width) && height == old(height)
      ensures pixels == Without(old(pixels), width, start, end)
    {
      var indexes := CollectIndexes(start, end, n);
      var p := pixels;
      ghost var del := RectCells(width, start, end, |p|);
      var kept: seq<Argb32> := [];
      var m: u32 := 0;
      while m < |p|
        invariant m <= |p| && kept == KeptPrefix(p, del, m)
        invariant unchanged(this)
      {
        if !(m in indexes) {
          kept := kept + [p[m]];
        }
        m := m + 1;
      }
      pixels := kept;
    }

    /** `crop`: removes `fromRight` columns on the right, `fromLeft` on the
        left, `fromTop` rows at the top (the high rows) and `fromBottom` at
        the bottom (row 0 upwards), each with `m_delete_region`; nothing
        changes when the signed width or height left over would be negative. */
    method Crop(fromRight: u32, fromLeft: u32, fromTop: u32, fromBottom: u32)
      requires Valid() && width < 0x8000_0000 && height < 0x8000_0000
      requires fromRight < 0x8000_0000 && fromLeft < 0x8000_0000
      requires fromTop < 0x8000_0000 && fromBottom < 0x8000_0000
      requires height - fromTop - fromBottom >= -0x8000_0000
      requires width - fromLeft - fromRight >= -0x8000_0000
      modifies this
      ensures Valid()
      ensures CropAccepted(old(width), old(height), fromRight, fromLeft, fromTop, fromBottom) ==>
                width == old(width) - fromLeft - fromRight && height == old(height) - fromTop - fromBottom
                && pixels == Window(old(pixels), old(width), width, height, fromLeft, fromBottom)
      ensures !CropAccepted(old(width), old(height), fromRight, fromLeft, fromTop, fromBottom) ==>
                width == old(width) && height == old(height) && pixels == old(pixels)
    {
      var checkHeight := I32(height) - I32(fromTop) - I32(fromBottom);
      var checkWidth := I32(width) - I32(fromLeft) - I32(fromRight);
      if checkHeight < 0 || checkWidth < 0 {
        return;
      }
      ghost var p0, w0, h0 := pixels, width, height;
      ghost var dx: nat, dy: nat := 0, 0;
      WindowWhole(p0, w0, h0);
      if fromRight != 0 {
        ghost var w1, h1 := width, height;
        CropRightColumns(fromRight);
        WindowTwice(p0, w0, w1, h1, dx, dy, width, height, 0, 0);
      }
      if fromLeft != 0 {
        ghost var w1, h1 := width, height;
        CropLeftColumns(fromLeft);
        WindowTwice(p0, w0, w1, h1, dx, dy, width, height, fromLeft, 0);
        dx := dx + fromLeft;
      }
      if fromTop != 0 {
        ghost var w1, h1 := width, height;
        CropTopRows(fromTop);
        WindowTwice(p0, w0, w1, h1, dx, dy, width, height, 0, 0);
      }
      if fromBottom != 0 {
        ghost var w1, h1 := width, height;
        CropBottomRows(fromBottom);
        WindowTwice(p0, w0, w1, h1, dx, dy, width, height, 0, fromBottom);
        dy := dy + fromBottom;
      }
    }

    /** `crop`'s first step: deletes the rightmost `n` columns. */
    method CropRightColumns(n: u32)
      requires Valid() && 0 < n <= width
      modifies this
      ensures Valid() && width == old(width) - n && height == old(height)
      ensures pixels == Window(old(pixels), old(width), width, height, 0, 0)
    {
      var nw := width - n;
      MulMono(height, nw, width);
      MulMono(height, n, width);
      ghost var cur := pixels;
      DeleteRegion(IVec2(nw, 0), IVec2(width, height), U32(n * height));
      CropRight(cur, width, height, n);
      width := nw;
    }

    /** `crop`'s second step: deletes the leftmost `n` columns. */
    method CropLeftColumns(n: u32)
      requires Valid() && 0 < n <= width
      modifies this
      ensures Valid() && width == old(width) - n && height == old(height)
      ensures pixels == Window(old(pixels), old(width), width, height, n, 0)
    {
      var nw := width - n;
      MulMono(height, nw, width);
      MulMono(height, n, width);
      ghost var cur := pixels;
      DeleteRegion(IVec2(0, 0), IVec2(n, height), U32(n * height));
      CropLeft(cur, width, height, n);
      width := nw;
    }

    /** `crop`'s third step: deletes the top `n` rows (the highest ones). */
    method CropTopRows(n: u32)
      requires Valid() && 0 < n <= height
      modifies this
      ensures Valid() && width == old(width) && height == old(height) - n
      ensures pixels == Window(old(pixels), old(width), width, height, 0, 0)
    {
      var nh := height - n;
      MulMono(width, nh, height);
      MulMono(width, n, height);
      ghost var cur := pixels;
      DeleteRegion(IVec2(0, nh), IVec2(width, height), U32(width * n));
      CropTop(cur, width, height, n);
      height := nh;
    }

    /** `crop`'s last step: deletes the bottom `n` rows (row 0 upwards). */
    method CropBottomRows(n: u32)
      requires Valid() && 0 < n <= height
      modifies this
      ensures Valid() && width == old(width) && height == old(height) - n
      ensures pixels == Window(old(pixels), old(width), width, height, 0, n)
    {
      var nh := height - n;
      MulMono(width, nh, height);
      MulMono(width, n, height);
      ghost var cur := pixels;
      DeleteRegion(IVec2(0, 0), IVec2(width, n), U32(width * n));
      CropBottom(cur, width, height, n);
      height := nh;
    }

    /** `extrude`: grows the image by `fromRight` columns on the right, then
        `fromTop` rows at the top, `fromLeft` columns on the left and
        `fromBottom` rows at the bottom, all of colour `c`; the old image
        ends up with its corner at (`fromLeft`, `fromBottom`). */
    method Extrude(fromRight: u32, fromLeft: u32, fromTop: u32, fromBottom: u32, c: Argb32)
      requires Valid()
      requires width + fromRight + fromLeft < 0x1_0000_0000 && height + fromTop + fromBottom < 0x1_0000_0000
      requires (width + fromRight + fromLeft) * (height + fromTop + fromBottom) < 0x1_0000_0000
      modifies this
      ensures Valid()
      ensures width == old(width) + fromRight + fromLeft && height == old(height) + fromTop + fromBottom
      ensures Extruded(pixels, old(pixels), old(width), old(height), c, width, height, fromLeft, fromBottom)
    {
      ghost var p0, w0, h0 := pixels, width, height;
      ghost var W, H := width + fromRight + fromLeft, height + fromTop + fromBottom;
      PastedWhole(p0, w0, h0, c);
      ghost var cur := pixels;
      MulBoth(width + fromRight, height, W, H);
      ExtrudeRight(fromRight, c);
      ExtrudedStep(cur, p0, w0, h0, c, w0, h0, 0, 0, pixels, width, height, 0, 0);
      cur := pixels;
      MulBoth(width, height + fromTop, W, H);
      ExtrudeTop(fromTop, c);
      ExtrudedStep(cur, p0, w0, h0, c, w0 + fromRight, h0, 0, 0, pixels, width, height, 0, 0);
      cur := pixels;
      MulBoth(width + fromLeft, height, W, H);
      ExtrudeLeft(fromLeft, c);
      ExtrudedStep(cur, p0, w0, h0, c, w0 + fromRight, h0 + fromTop, 0, 0, pixels, width, height, fromLeft, 0);
      cur := pixels;
      MulBoth(width, height + fromBottom, W, H);
      ExtrudeBottom(fromBottom, c);
      ExtrudedStep(cur, p0, w0, h0, c, W, h0 + fromTop, fromLeft, 0, pixels, width, height, 0, fromBottom);
    }

    /** `extrude`'s first step (when `n` is not 0): `n` columns of colour `c`
        on the right. */
    method ExtrudeRight(n: u32, c: Argb32)
      requires Valid() && width + n < 0x1_0000_0000 && (width + n) * height < 0x1_0000_0000
      modifies this
      ensures Valid() && width == old(width) + n && height == old(height)
      ensures pixels == Pasted(old(pixels), old(width), old(height), Fill(width * height, c), width, height, 0, 0)
    {
      if n != 0 {
        var np := WidenRight(pixels, width, height, n, c);
        pixels, width := np, width + n;
      } else {
        PastedWhole(pixels, width, height, c);
      }
    }

    /** `extrude`'s second step (when `n` is not 0): `n` rows of colour `c`
        appended at the top (`std::vector::resize`). */
    method ExtrudeTop(n: u32, c: Argb32)
      requires Valid() && height + n < 0x1_0000_0000 && width * (height + n) < 0x1_0000_0000
      modifies this
      ensures Valid() && width == old(width) && height == old(height) + n
      ensures pixels == Pasted(old(pixels), old(width), old(height), Fill(width * height, c), width, height, 0, 0)
    {
      if n != 0 {
        MulMono(width, 0, n);
        var amount := U32(width * n);
        RowsAppended(pixels, width, height, n, c);
        pixels := pixels + Fill(amount, c);
        height := height + n;
      } else {
        PastedWhole(pixels, width, height, c);
      }
    }

    /** `extrude`'s third step (when `n` is not 0): `n` columns of colour `c`
        on the left. */
    method ExtrudeLeft(n: u32, c: Argb32)
      requires Valid() && n + width < 0x1_0000_0000 && (n + width) * height < 0x1_0000_0000
      modifies this
      ensures Valid() && width == old(width) + n && height == old(height)
      ensures pixels == Pasted(old(pixels), old(width), old(height), Fill(width * height, c), width, height, n, 0)
    {
      if n != 0 {
        var np := WidenLeft(pixels, width, height, n, c);
        pixels, width := np, n + width;
      } else {
        PastedWhole(pixels, width, height, c);
      }
    }

    /** `extrude`'s last step (when `n` is not 0): `n` rows of colour `c` at
        the bottom. */
    method ExtrudeBottom(n: u32, c: Argb32)
      requires Valid() && n + height < 0x1_0000_0000 && width * (n + height) < 0x1_0000_0000
      modifies this
      ensures Valid() && width == old(width) && height == old(height) + n
      ensures pixels == Pasted(old(pixels), old(width), old(height), Fill(width * height, c), width, height, 0, n)
    {
      if n != 0 {
        var np := RaiseBottom(pixels, width, height, n, c);
        pixels, height := np, n + height;
      } else {
        PastedWhole(pixels, width, height, c);
      }
    }
    /** `translate_region`: moves the region from `bl` to `tr` (exclusive)
        `right` columns right, `left` left, `up` rows up and `down` down,
        one move after the other, each leaving white where the region was;
        a region larger than the image or a move past its edge ends the
        operation. */
    method TranslateRegion(bl: IVec2, tr: IVec2, right: u32, left: u32, up: u32, down: u32)
      requires Valid() && (RegionRefused(width, height, bl, tr) || (bl.x <= tr.x && bl.y <= tr.y))
      requires tr.x + right < 0x1_0000_0000 && tr.y + up < 0x1_0000_0000
      requires bl.x < 0x8000_0000 && bl.y < 0x8000_0000 && left < 0x8000_0000 && down < 0x8000_0000
      modifies this
      ensures Valid() && width == old(width) && height == old(height)
      ensures pixels == Translated(old(pixels), width, height, bl, tr, right, left, up, down)
    {
      var h := U32(tr.y - bl.y);
      var w := U32(tr.x - bl.x);
      if h > height || w > width || tr.x > width || tr.y > height {
        return;
      }
      if right != 0 {
        if tr.x > width || tr.x + right > width {
          return;
        }
        pixels := TranslateRight(pixels, width, height, bl, tr, right);
      }
      if left != 0 {
        if I32(bl.x) - I32(left) < 0 {
          return;
        }
        pixels := TranslateLeft(pixels, width, height, bl, tr, left);
      }
      if up != 0 {
        if tr.y > height || tr.y + up > height {
          return;
        }
        pixels := TranslateUp(pixels, width, height, bl, tr, up);
      }
      if down != 0 {
        if I32(bl.y) - I32(down) < 0 {
          return;
        }
        pixels := TranslateDown(pixels, width, height, bl, tr, down);
      }
    }

    /** `swap_regions`: exchanges the `sw` × `sh` blocks at `o1` and `o2`
        when `SwapAccepted` holds, and reports whether it did. */
    method SwapRegions(sw: u32, sh: u32, o1: IVec2, o2: IVec2) returns (ok: bool)
      requires Valid()
      requires o1.x + sw < 0x1_0000_0000 && o1.y + sh < 0x1_0000_0000 && o2.x + sw < 0x1_0000_0000 && o2.y + sh < 0x1_0000_0000
      modifies this
      ensures Valid() && width == old(width) && height == old(height)
      ensures ok == SwapAccepted(width, height, sw, sh, o1, o2)
      ensures ok ==> pixels == Swapped(old(pixels), width, height, sw, sh, o1, o2)
      ensures !ok ==> pixels == old(pixels)
    {
      if o1.x + sw >= width || o1.y + sh >= height || o2.x + sw >= width || o2.y + sh >= height {
        return false;
      }
      var a, b := o1, o2;
      if a.x > b.x && a.y > b.y {
        a, b := b, a;
      }
      var topRight := IVec2(a.x + sw, a.y + sh);
      if topRight.x > b.x && topRight.y > b.y {
        return false;
      }
      SwapAcceptedDisjoint(width, height, sw, sh, a, b);
      ghost var p0 := pixels;
      pixels := SwapBlocks(pixels, width, height, sw, sh, a, b);
      SwappedSymmetric(p0, width, height, sw, sh, a, b);
      ok := true;
    }

    /** `insert_other_bitmap_at_coordinate`: copies `other` into this
        image with its bottom-left pixel at `coord`, unless it would reach
        the right or top edge, in which case nothing changes. */
    method InsertOtherBitmapAtCoordinate(other: BitmapImage, coord: IVec2)
      requires Valid() && other.Valid()
      requires coord.x + other.width < 0x1_0000_0000 && coord.y + other.height < 0x1_0000_0000
      modifies this
      ensures Valid() && width == old(width) && height == old(height)
      ensures old(coord.x + other.width < width && coord.y + other.height < height) ==>
                pixels == Pasted(old(other.pixels), old(other.width), old(other.height), old(pixels), width, height, coord.x, coord.y)
      ensures old(coord.x + other.width >= width || coord.y + other.height >= height) ==> pixels == old(pixels)
    {
      var otherWidth, otherHeight := other.width, other.height;
      if coord.x + otherWidth >= width || coord.y + otherHeight >= height {
        return;
      }
      pixels := PasteBlock(pixels, width, height, other.pixels, otherWidth, otherHeight, coord);
    }
  }

  /** The loop of `extrude`'s right phase: a new vector of colour `c`, `n`
      columns wider than the `w` × `h` image `p`, into which a walk over `p`
      (wrapping lazily at column `w`) copies each pixel to the same
      coordinate. */
  method WidenRight(p: seq<Argb32>, w: u32, h: u32, n: u32, c: Argb32) returns (np: seq<Argb32>)
    requires |p| == w * h && w + n < 0x1_0000_0000 && (w + n) * h < 0x1_0000_0000
    ensures np == Pasted(p, w, h, Fill((w + n) * h, c), w + n, h, 0, 0)
  {
    var nw: u32 := w + n;
    MulMono(h, w, nw);
    MulMono(w, 0, h);
    var amount := U32(n * h);
    assert nw * h == w * h + n * h;
    ghost var base := Fill(nw * h, c);
    np := Fill(|p| + amount, c);
    PastingStart(p, w, h, base, nw, h, 0, 0);
    var pos := IVec2(0, 0);
    var i: u32 := 0;
    while i < |p|
      invariant i <= |p| && WalkAt(w, pos.x, pos.y, i)
      invariant Pasting(np, p, w, h, base, nw, h, 0, 0, pos)
    {
      np, pos := WidenRightStep(np, p, w, h, base, nw, pos, i);
      i := i + 1;
    }
    PastedAll(np, p, w, h, base, nw, h, 0, 0, pos);
  }

  /** One iteration of `WidenRight`'s walk: wrap at column `w`, then copy
      the pixel to the same coordinate of the wider image. */
  method WidenRightStep(np: seq<Argb32>, p: seq<Argb32>, w: u32, h: u32, ghost base: seq<Argb32>, nw: u32, pos: IVec2, i: u32)
    returns (np': seq<Argb32>, pos': IVec2)
    requires |p| == w * h && w <= nw && nw * h < 0x1_0000_0000 && i < |p|
    requires WalkAt(w, pos.x, pos.y, i) && Pasting(np, p, w, h, base, nw, h, 0, 0, pos)
    ensures WalkAt(w, pos'.x, pos'.y, i + 1) && Pasting(np', p, w, h, base, nw, h, 0, 0, pos')
  {
    WalkNext(w, h, pos.x, pos.y, i);
    pos' := pos;
    if pos'.x >= w {
      PastingWrap(np, p, w, h, base, nw, h, 0, 0, pos', i);
      pos' := IVec2(0, pos'.y + 1);
    }
    PastingStep(np, p, w, h, base, nw, h, 0, 0, pos', i);
    var k, t := NthElementIndex(pos', w), NthElementIndex(pos', nw);
    assert k == i && t == nw * (pos'.y + 0) + (pos'.x + 0);
    np' := np[t := p[k]];
    assert Pasting(np', p, w, h, base, nw, h, 0, 0, IVec2(pos'.x + 1, pos'.y));
    pos' := IVec2(pos'.x + 1, pos'.y);
  }

  /** The loop of `extrude`'s left phase: a new vector of colour `c`, `n`
      columns wider than the `w` × `h` image `p`, walked from column `n` on
      (wrapping lazily at the new width); each visited cell takes the pixel
      of `p` `n` columns to its left. */
  method WidenLeft(p: seq<Argb32>, w: u32, h: u32, n: u32, c: Argb32) returns (np: seq<Argb32>)
    requires |p| == w * h && n + w < 0x1_0000_0000 && (n + w) * h < 0x1_0000_0000
    ensures np == Pasted(p, w, h, Fill((n + w) * h, c), n + w, h, n, 0)
  {
    var nw: u32 := n + w;
    MulMono(h, w, nw);
    MulMono(w, 0, h);
    var amount := U32(n * h);
    assert nw * h == w * h + n * h;
    ghost var base := Fill(nw * h, c);
    np := Fill(|p| + amount, c);
    PastingStart(p, w, h, base, nw, h, n, 0);
    var pos := IVec2(n, 0);
    ghost var qpos := IVec2(0, 0);
    var i: u32 := 0;
    while i < |p|
      invariant i <= |p| && WalkAt(w, qpos.x, qpos.y, i)
      invariant pos == IVec2(qpos.x + n, qpos.y)
      invariant Pasting(np, p, w, h, base, nw, h, n, 0, qpos)
    {
      np, pos, qpos := WidenLeftStep(np, p, w, h, base, n, nw, pos, qpos, i);
      i := i + 1;
    }
    PastedAll(np, p, w, h, base, nw, h, n, 0, qpos);
  }

  /** One iteration of `WidenLeft`'s walk: wrap at the new width back to
      column `n`, then copy the pixel `n` columns to its left; `qpos` is the
      walk's coordinate in the source image. */
  method WidenLeftStep(np: seq<Argb32>, p: seq<Argb32>, w: u32, h: u32, ghost base: seq<Argb32>, n: u32, nw: u32,
                       pos: IVec2, ghost qpos: IVec2, i: u32)
    returns (np': seq<Argb32>, pos': IVec2, ghost qpos': IVec2)
    requires |p| == w * h && nw == n + w && nw * h < 0x1_0000_0000 && i < |p|
    requires WalkAt(w, qpos.x, qpos.y, i) && pos == IVec2(qpos.x + n, qpos.y)
    requires Pasting(np, p, w, h, base, nw, h, n, 0, qpos)
    ensures WalkAt(w, qpos'.x, qpos'.y, i + 1) && pos' == IVec2(qpos'.x + n, qpos'.y)
    ensures Pasting(np', p, w, h, base, nw, h, n, 0, qpos')
  {
    WalkNext(w, h, qpos.x, qpos.y, i);
    pos', qpos' := pos, qpos;
    if pos'.x >= nw {
      PastingWrap(np, p, w, h, base, nw, h, n, 0, qpos', i);
      pos', qpos' := IVec2(n, pos'.y + 1), IVec2(0, qpos'.y + 1);
    }
    PastingStep(np, p, w, h, base, nw, h, n, 0, qpos', i);
    var k, t := NthElementIndex(IVec2(pos'.x - n, pos'.y), w), NthElementIndex(pos', nw);
    assert k == i && t == nw * (qpos'.y + 0) + (qpos'.x + n);
    np' := np[t := p[k]];
    assert Pasting(np', p, w, h, base, nw, h, n, 0, IVec2(qpos'.x + 1, qpos'.y));
    pos', qpos' := IVec2(pos'.x + 1, pos'.y), IVec2(qpos'.x + 1, qpos'.y);
  }

  /** The loop of `extrude`'s bottom phase: a new vector of colour `c`, `n`
      rows higher than the `w` × `h` image `p`, into which `p` is copied in
      order from the start of row `n` on. */
  method RaiseBottom(p: seq<Argb32>, w: u32, h: u32, n: u32, c: Argb32) returns (np: seq<Argb32>)
    requires |p| == w * h && n + h < 0x1_0000_0000 && w * (n + h) < 0x1_0000_0000
    ensures np == Pasted(p, w, h, Fill(w * (n + h), c), w, n + h, 0, n)
  {
    MulMono(w, 0, n);
    MulMono(w, n, n + h);
    var amount := U32(w * n);
    np := Fill(|p| + amount, c);
    var i := NthElementIndex(IVec2(0, n), w);
    var j: u32 := 0;
    while j < |p|
      invariant j <= |p| && i == amount + j && |np| == amount + |p|
      invariant forall k :: 0 <= k < |np| ==> np[k] == if amount <= k < i then p[k - amount] else c
    {
      np := np[i := p[j]];
      i := i + 1;
      j := j + 1;
    }
    assert np == Fill(amount, c) + p;
    RowsPrepended(p, w, h, n, c);
  }

  /** A forward walk that has visited every cell of the region has moved
      all of it. */
  lemma ForwardWalkDone(r: seq<Argb32>, p: seq<Argb32>, W: u32, H: u32, bl: IVec2, tr: IVec2, dx: int, dy: int, pos: IVec2, i: nat)
    requires bl.x <= tr.x && bl.y <= tr.y
    requires WalkAt(tr.x - bl.x, pos.x - bl.x, pos.y - bl.y, i) && i == (tr.x - bl.x) * (tr.y - bl.y)
    requires Moving(r, p, W, H, bl, tr, dx, dy, Cursor(pos.x, pos.y), true)
    ensures r == Moved(p, W, H, bl, tr, dx, dy)
  {
    WalkEnd(tr.x - bl.x, tr.y - bl.y, pos.x - bl.x, pos.y - bl.y, i);
    MovingEnd(r, p, W, H, bl, tr, dx, dy, Cursor(pos.x, pos.y), true);
  }

  /** A backward walk that has visited every cell of the region has moved
      all of it. */
  lemma BackWalkDone(r: seq<Argb32>, p: seq<Argb32>, W: u32, H: u32, bl: IVec2, tr: IVec2, dx: int, dy: int, px: int, py: int, i: nat)
    requires bl.x <= tr.x && bl.y <= tr.y
    requires WalkAt(tr.x - bl.x, tr.x - 1 - px, tr.y - 1 - py, i) && i == (tr.x - bl.x) * (tr.y - bl.y)
    requires Moving(r, p, W, H, bl, tr, dx, dy, Cursor(px, py), false)
    ensures r == Moved(p, W, H, bl, tr, dx, dy)
  {
    WalkEnd(tr.x - bl.x, tr.y - bl.y, tr.x - 1 - px, tr.y - 1 - py, i);
    MovingEnd(r, p, W, H, bl, tr, dx, dy, Cursor(px, py), false);
  }

  /** One iteration of the backward walk of the right and up moves: wraps
      the cursor to the row below when it has left the region's left edge,
      then moves the cell under it (`BackMoveCell`) and steps left. */
  method BackStep(r: seq<Argb32>, ghost p: seq<Argb32>, W: u32, H: u32, bl: IVec2, tr: IVec2, dx: u32, dy: u32, px: int, py: int, i: u32)
    returns (r': seq<Argb32>, px': int, py': int)
    requires |p| == W * H < 0x1_0000_0000 && bl.x <= tr.x && bl.y <= tr.y && tr.x + dx <= W && tr.y + dy <= H && dx + dy > 0
    requires WalkAt(tr.x - bl.x, tr.x - 1 - px, tr.y - 1 - py, i) && i < (tr.x - bl.x) * (tr.y - bl.y)
    requires Moving(r, p, W, H, bl, tr, dx, dy, Cursor(px, py), false)
    ensures WalkAt(tr.x - bl.x, tr.x - 1 - px', tr.y - 1 - py', i + 1)
    ensures Moving(r', p, W, H, bl, tr, dx, dy, Cursor(px', py'), false)
  {
    WalkNext(tr.x - bl.x, tr.y - bl.y, tr.x - 1 - px, tr.y - 1 - py, i);
    px', py' := px, py;
    if px' < bl.x {
      MovingBackWrap(r, p, W, H, bl, tr, dx, dy, Cursor(px', py'));
      px', py' := tr.x - 1, py' - 1;
    }
    r' := BackMoveCell(r, p, W, H, bl, tr, dx, dy, px', py');
    px' := px' - 1;
  }

  /** The cell at (`px`, `py`) of the region is copied `dx` columns right
      and `dy` rows up and then whitened. */
  method BackMoveCell(r: seq<Argb32>, ghost p: seq<Argb32>, W: u32, H: u32, bl: IVec2, tr: IVec2, dx: u32, dy: u32, px: int, py: int)
    returns (r': seq<Argb32>)
    requires |p| == W * H < 0x1_0000_0000 && tr.x + dx <= W && tr.y + dy <= H && dx + dy > 0
    requires InRegion(bl, tr, px, py) && Moving(r, p, W, H, bl, tr, dx, dy, Cursor(px, py), false)
    ensures Moving(r', p, W, H, bl, tr, dx, dy, Cursor(px - 1, py), false)
  {
    CellBound(W, H, px, py);
    CellBound(W, H, px + dx, py + dy);
    var s := NthElementIndex(IVec2(px, py), W);
    var t := NthElementIndex(IVec2(px + dx, py + dy), W);
    MovingBackStep(r, p, W, H, bl, tr, dx, dy, Cursor(px, py), s, t);
    r' := r[t := r[s]][s := WHITE];
  }

  /** One iteration of the forward walk of the left and down moves: wraps
      the cursor to the row above when it has reached the region's right
      edge, then moves the cell under it (`ForwardMoveCell`) and steps
      right. */
  method ForwardStep(r: seq<Argb32>, ghost p: seq<Argb32>, W: u32, H: u32, bl: IVec2, tr: IVec2, dx: u32, dy: u32, pos: IVec2, i: u32)
    returns (r': seq<Argb32>, pos': IVec2)
    requires |p| == W * H < 0x1_0000_0000 && bl.x <= tr.x <= W && bl.y <= tr.y <= H && dx <= bl.x && dy <= bl.y && dx + dy > 0
    requires WalkAt(tr.x - bl.x, pos.x - bl.x, pos.y - bl.y, i) && i < (tr.x - bl.x) * (tr.y - bl.y)
    requires Moving(r, p, W, H, bl, tr, -(dx as int), -(dy as int), Cursor(pos.x, pos.y), true)
    ensures WalkAt(tr.x - bl.x, pos'.x - bl.x, pos'.y - bl.y, i + 1)
    ensures Moving(r', p, W, H, bl, tr, -(dx as int), -(dy as int), Cursor(pos'.x, pos'.y), true)
  {
    WalkNext(tr.x - bl.x, tr.y - bl.y, pos.x - bl.x, pos.y - bl.y, i);
    pos' := pos;
    if pos'.x == tr.x {
      MovingForwardWrap(r, p, W, H, bl, tr, -(dx as int), -(dy as int), Cursor(pos'.x, pos'.y));
      pos' := IVec2(bl.x, pos'.y + 1);
    }
    r' := ForwardMoveCell(r, p, W, H, bl, tr, dx, dy, pos');
    pos' := IVec2(pos'.x + 1, pos'.y);
  }

  /** The cell at `pos` of the region is copied `dx` columns left and `dy`
      rows down and then whitened. */
  method ForwardMoveCell(r: seq<Argb32>, ghost p: seq<Argb32>, W: u32, H: u32, bl: IVec2, tr: IVec2, dx: u32, dy: u32, pos: IVec2)
    returns (r': seq<Argb32>)
    requires |p| == W * H < 0x1_0000_0000 && tr.x <= W && tr.y <= H && dx <= bl.x && dy <= bl.y && dx + dy > 0
    requires InRegion(bl, tr, pos.x, pos.y) && Moving(r, p, W, H, bl, tr, -(dx as int), -(dy as int), Cursor(pos.x, pos.y), true)
    ensures Moving(r', p, W, H, bl, tr, -(dx as int), -(dy as int), Cursor(pos.x + 1, pos.y), true)
  {
    CellBound(W, H, pos.x, pos.y);
    CellBound(W, H, pos.x - dx, pos.y - dy);
    var s := NthElementIndex(pos, W);
    var t := NthElementIndex(IVec2(pos.x - dx, pos.y - dy), W);
    MovingForwardStep(r, p, W, H, bl, tr, dx, dy, Cursor(pos.x, pos.y), s, t);
    r' := r[t := r[s]][s := WHITE];
  }

  /** The right move of `translate_region`: a backward walk over the
      region, from its top-right cell leftwards and then down row by row,
      copying each cell `right` columns to the right and whitening it.  The
      cursor is kept as a signed pair so that stepping left of column 0
      wraps to the next row (see `BackWalkAsWritten`). */
  method TranslateRight(p: seq<Argb32>, W: u32, H: u32, bl: IVec2, tr: IVec2, right: u32) returns (r: seq<Argb32>)
    requires |p| == W * H < 0x1_0000_0000 && bl.x <= tr.x && bl.y <= tr.y <= H && tr.x + right <= W && right > 0
    ensures r == Moved(p, W, H, bl, tr, right, 0)
  {
    var w, h := tr.x - bl.x, tr.y - bl.y;
    MulBoth(w, h, W, H);
    var n: u32 := w * h;
    r := p;
    var px: int, py: int := tr.x - 1, tr.y - 1;
    MovingStart(p, W, H, bl, tr, right, 0, Cursor(px, py), false);
    var i: u32 := 0;
    while i < n
      invariant i <= n && WalkAt(w, tr.x - 1 - px, tr.y - 1 - py, i)
      invariant Moving(r, p, W, H, bl, tr, right, 0, Cursor(px, py), false)
    {
      r, px, py := BackStep(r, p, W, H, bl, tr, right, 0, px, py, i);
      i := i + 1;
    }
    BackWalkDone(r, p, W, H, bl, tr, right, 0, px, py, i);
  }

  /** The left move of `translate_region`: a forward walk over the region,
      from its bottom-left cell rightwards and then up row by row, copying
      each cell `left` columns to the left and whitening it. */
  method TranslateLeft(p: seq<Argb32>, W: u32, H: u32, bl: IVec2, tr: IVec2, left: u32) returns (r: seq<Argb32>)
    requires |p| == W * H < 0x1_0000_0000 && bl.x <= tr.x <= W && bl.y <= tr.y <= H && 0 < left <= bl.x
    ensures r == Moved(p, W, H, bl, tr, -(left as int), 0)
  {
    var w, h := tr.x - bl.x, tr.y - bl.y;
    MulBoth(w, h, W, H);
    var n: u32 := w * h;
    r := p;
    var pos := bl;
    MovingStart(p, W, H, bl, tr, -(left as int), 0, Cursor(pos.x, pos.y), true);
    var i: u32 := 0;
    while i < n
      invariant i <= n && WalkAt(w, pos.x - bl.x, pos.y - bl.y, i)
      invariant Moving(r, p, W, H, bl, tr, -(left as int), 0, Cursor(pos.x, pos.y), true)
    {
      r, pos := ForwardStep(r, p, W, H, bl, tr, left, 0, pos, i);
      i := i + 1;
    }
    ForwardWalkDone(r, p, W, H, bl, tr, -(left as int), 0, pos, i);
  }

  /** The up move of `translate_region`: the backward walk of the right
      move, copying each cell `up` rows up and whitening it. */
  method TranslateUp(p: seq<Argb32>, W: u32, H: u32, bl: IVec2, tr: IVec2, up: u32) returns (r: seq<Argb32>)
    requires |p| == W * H < 0x1_0000_0000 && bl.x <= tr.x <= W && bl.y <= tr.y && tr.y + up <= H && up > 0
    ensures r == Moved(p, W, H, bl, tr, 0, up)
  {
    var w, h := tr.x - bl.x, tr.y - bl.y;
    MulBoth(w, h, W, H);
    var n: u32 := w * h;
    r := p;
    var px: int, py: int := tr.x - 1, tr.y - 1;
    MovingStart(p, W, H, bl, tr, 0, up, Cursor(px, py), false);
    var i: u32 := 0;
    while i < n
      invariant i <= n && WalkAt(w, tr.x - 1 - px, tr.y - 1 - py, i)
      invariant Moving(r, p, W, H, bl, tr, 0, up, Cursor(px, py), false)
    {
      r, px, py := BackStep(r, p, W, H, bl, tr, 0, up, px, py, i);
      i := i + 1;
    }
    BackWalkDone(r, p, W, H, bl, tr, 0, up, px, py, i);
  }

  /** The down move of `translate_region`: the forward walk of the left
      move, copying each cell `down` rows down and whitening it. */
  method TranslateDown(p: seq<Argb32>, W: u32, H: u32, bl: IVec2, tr: IVec2, down: u32) returns (r: seq<Argb32>)
    requires |p| == W * H < 0x1_0000_0000 && bl.x <= tr.x <= W && bl.y <= tr.y <= H && 0 < down <= bl.y
    ensures r == Moved(p, W, H, bl, tr, 0, -(down as int))
  {
    var w, h := tr.x - bl.x, tr.y - bl.y;
    MulBoth(w, h, W, H);
    var n: u32 := w * h;
    r := p;
    var pos := bl;
    MovingStart(p, W, H, bl, tr, 0, -(down as int), Cursor(pos.x, pos.y), true);
    var i: u32 := 0;
    while i < n
      invariant i <= n && WalkAt(w, pos.x - bl.x, pos.y - bl.y, i)
      invariant Moving(r, p, W, H, bl, tr, 0, -(down as int), Cursor(pos.x, pos.y), true)
    {
      r, pos := ForwardStep(r, p, W, H, bl, tr, 0, down, pos, i);
      i := i + 1;
    }
    ForwardWalkDone(r, p, W, H, bl, tr, 0, -(down as int), pos, i);
  }

  /** `uint32_t` decrement, which wraps from 0 to 2^32 - 1. */
  function Decrement(x: u32): (r: u32)
    ensures r == U32(x - 1)
  {
    if x == 0 then 0xFFFF_FFFF else x - 1
  }

  /** The cells visited by `k` iterations of the right (and up) move's walk
      as written: the cursor is a pair of `uint32_t`, wrapped lazily when
      `pos.x < bl.x`, then read, then decremented. */
  function BackWalkAsWritten(W: u32, bl: IVec2, tr: IVec2, pos: IVec2, k: nat): (cells: seq<u32>)
    ensures |cells| == k
    ensures k > 0 && bl.x <= pos.x ==> cells[0] == NthElementIndex(pos, W)
    decreases k
  {
    if k == 0 then []
    else
      var q := if pos.x < bl.x then IVec2(Decrement(tr.x), Decrement(pos.y)) else pos;
      [NthElementIndex(q, W)] + BackWalkAsWritten(W, bl, tr, IVec2(Decrement(q.x), q.y), k - 1)
  }

  /** With the region starting at column 0 the `uint32_t` cursor steps from
      0 to 0xFFFF_FFFF, the wrap test never holds, and the walk leaves the
      region: in a 4 × 2 image, moving the 2 × 2 region at the origin visits
      index 3, cell (3, 0) outside the region, third. */
  lemma BackWalkLeavesRegion()
    ensures BackWalkAsWritten(4, IVec2(0, 0), IVec2(2, 2), IVec2(1, 1), 3) == [5, 4, 3]
    ensures NthElementCoordinate(3, 4) == IVec2(3, 0) && !InRegion(IVec2(0, 0), IVec2(2, 2), 3, 0)
  {
    BackWalkPastColumnZero();
    assert NthElementIndex(IVec2(1, 1), 4) == 5;
  }

  /** The two steps of that walk from cell (0, 1): the second reads index
      3, having stepped to column 2^32 - 1 instead of wrapping. */
  lemma BackWalkPastColumnZero()
    ensures BackWalkAsWritten(4, IVec2(0, 0), IVec2(2, 2), IVec2(0, 1), 2) == [4, 3]
  {
    assert BackWalkAsWritten(4, IVec2(0, 0), IVec2(2, 2), IVec2(0xFFFF_FFFF, 1), 1) == [3] by {
      assert NthElementIndex(IVec2(0xFFFF_FFFF, 1), 4) == U32(4 + 0xFFFF_FFFF) == 3;
    }
    assert NthElementIndex(IVec2(0, 1), 4) == 4;
  }




  /** The loop of `swap_regions`: walks both blocks row by row from their
      bottom-left cells, exchanging the cells under the two cursors. */
  method SwapBlocks(p: seq<Argb32>, W: u32, H: u32, sw: u32, sh: u32, a: IVec2, b: IVec2) returns (r: seq<Argb32>)
    requires |p| == W * H < 0x1_0000_0000 && Disjoint(a, b, sw, sh)
    requires a.x + sw <= W && a.y + sh <= H && b.x + sw <= W && b.y + sh <= H
    ensures r == Swapped(p, W, H, sw, sh, a, b)
  {
    MulBoth(sw, sh, W, H);
    var n := U32(sw * sh);
    var topRight := IVec2(a.x + sw, a.y + sh);
    var pos1, pos2 := a, b;
    ghost var pos := IVec2(0, 0);
    r := p;
    SwappingStart(p, W, H, sw, sh, a, b);
    var i: u32 := 0;
    while i < n
      invariant i <= n && WalkAt(sw, pos.x, pos.y, i)
      invariant pos1.x == a.x + pos.x && pos1.y == a.y + pos.y && pos2.x == b.x + pos.x && pos2.y == b.y + pos.y
      invariant Swapping(r, p, W, H, sw, sh, a, b, pos)
    {
      r, pos1, pos2, pos := SwapStep(r, p, W, H, sw, sh, a, b, topRight, pos1, pos2, pos, i);
      i := i + 1;
    }
    WalkEnd(sw, sh, pos.x, pos.y, i);
    SwappingEnd(r, p, W, H, sw, sh, a, b, pos);
  }

  /** One iteration of `swap_regions`' loop: wraps both cursors to the next
      row once the first has reached the first block's right edge, exchanges
      the two cells (`SwapCell`) and steps both cursors right. */
  method SwapStep(r: seq<Argb32>, ghost p: seq<Argb32>, W: u32, H: u32, sw: u32, sh: u32, a: IVec2, b: IVec2, topRight: IVec2,
                  pos1: IVec2, pos2: IVec2, ghost pos: IVec2, i: u32)
    returns (r': seq<Argb32>, pos1': IVec2, pos2': IVec2, ghost pos': IVec2)
    requires |p| == W * H < 0x1_0000_0000 && Disjoint(a, b, sw, sh)
    requires a.x + sw <= W && a.y + sh <= H && b.x + sw <= W && b.y + sh <= H && topRight == IVec2(a.x + sw, a.y + sh)
    requires WalkAt(sw, pos.x, pos.y, i) && i < sw * sh
    requires pos1.x == a.x + pos.x && pos1.y == a.y + pos.y && pos2.x == b.x + pos.x && pos2.y == b.y + pos.y
    requires Swapping(r, p, W, H, sw, sh, a, b, pos)
    ensures WalkAt(sw, pos'.x, pos'.y, i + 1)
    ensures pos1'.x == a.x + pos'.x && pos1'.y == a.y + pos'.y && pos2'.x == b.x + pos'.x && pos2'.y == b.y + pos'.y
    ensures Swapping(r', p, W, H, sw, sh, a, b, pos')
  {
    WalkNext(sw, sh, pos.x, pos.y, i);
    pos1', pos2', pos' := pos1, pos2, pos;
    if pos1'.x == topRight.x {
      SwappingWrap(r, p, W, H, sw, sh, a, b, pos');
      pos1' := IVec2(a.x, pos1'.y + 1);
      pos2' := IVec2(b.x, pos2'.y + 1);
      pos' := IVec2(0, pos'.y + 1);
    }
    r' := SwapCell(r, p, W, H, sw, sh, a, b, pos1', pos2', pos');
    pos1' := IVec2(pos1'.x + 1, pos1'.y);
    pos2' := IVec2(pos2'.x + 1, pos2'.y);
    pos' := IVec2(pos'.x + 1, pos'.y);
  }

  /** The cells under the two cursors trade places. */
  method SwapCell(r: seq<Argb32>, ghost p: seq<Argb32>, W: u32, H: u32, sw: u32, sh: u32, a: IVec2, b: IVec2,
                  pos1: IVec2, pos2: IVec2, ghost pos: IVec2)
    returns (r': seq<Argb32>)
    requires |p| == W * H < 0x1_0000_0000 && Disjoint(a, b, sw, sh)
    requires a.x + sw <= W && a.y + sh <= H && b.x + sw <= W && b.y + sh <= H
    requires pos.x < sw && pos.y < sh
    requires pos1.x == a.x + pos.x && pos1.y == a.y + pos.y && pos2.x == b.x + pos.x && pos2.y == b.y + pos.y
    requires Swapping(r, p, W, H, sw, sh, a, b, pos)
    ensures Swapping(r', p, W, H, sw, sh, a, b, IVec2(pos.x + 1, pos.y))
  {
    SwappingStep(r, p, W, H, sw, sh, a, b, pos);
    var i1 := NthElementIndex(pos1, W);
    var i2 := NthElementIndex(pos2, W);
    assert i1 == W * (a.y + pos.y) + (a.x + pos.x) && i2 == W * (b.y + pos.y) + (b.x + pos.x);
    var temp := r[i2];
    r' := r[i2 := r[i1]][i1 := temp];
  }

  /** The loop of `insert_other_bitmap_at_coordinate`: walks the inserted
      image row by row with one cursor and this image with another, copying
      each pixel across. */
  method PasteBlock(base: seq<Argb32>, W: u32, H: u32, q: seq<Argb32>, qw: u32, qh: u32, coord: IVec2) returns (r: seq<Argb32>)
    requires |base| == W * H < 0x1_0000_0000 && |q| == qw * qh && coord.x + qw <= W && coord.y + qh <= H
    ensures r == Pasted(q, qw, qh, base, W, H, coord.x, coord.y)
  {
    MulBoth(qw, qh, W, H);
    var pen := coord;
    var otherPen := IVec2(0, 0);
    r := base;
    PastingStart(q, qw, qh, base, W, H, coord.x, coord.y);
    var i: u32 := 0;
    while i < |q|
      invariant i <= |q| && otherPen.x <= qw && i == qw * otherPen.y + otherPen.x && (i == 0 ==> otherPen == IVec2(0, 0)) && (i > 0 ==> otherPen.x > 0)
      invariant pen.x == otherPen.x + coord.x && pen.y == otherPen.y + coord.y
      invariant Pasting(r, q, qw, qh, base, W, H, coord.x, coord.y, otherPen)
    {
      r, pen, otherPen := PasteStep(r, q, qw, qh, base, W, H, coord, pen, otherPen, i);
      i := i + 1;
    }
    PastedAll(r, q, qw, qh, base, W, H, coord.x, coord.y, otherPen);
  }

  /** One iteration of `insert_other_bitmap_at_coordinate`'s loop: wraps
      both cursors to the next row once the inserted image's row is done,
      copies one pixel and steps both cursors right. */
  method PasteStep(r: seq<Argb32>, q: seq<Argb32>, qw: u32, qh: u32, ghost base: seq<Argb32>, W: u32, H: u32, coord: IVec2,
                   pen: IVec2, otherPen: IVec2, i: u32)
    returns (r': seq<Argb32>, pen': IVec2, otherPen': IVec2)
    requires |r| < 0x1_0000_0000 && |q| == qw * qh && coord.x + qw <= W && coord.y + qh <= H && qh < 0x1_0000_0000
    requires i < |q| && otherPen.x <= qw && i == qw * otherPen.y + otherPen.x && (i == 0 ==> otherPen == IVec2(0, 0))
    requires pen.x == otherPen.x + coord.x && pen.y == otherPen.y + coord.y
    requires Pasting(r, q, qw, qh, base, W, H, coord.x, coord.y, otherPen)
    ensures otherPen'.x <= qw && i + 1 == qw * otherPen'.y + otherPen'.x && otherPen'.x > 0
    ensures pen'.x == otherPen'.x + coord.x && pen'.y == otherPen'.y + coord.y
    ensures Pasting(r', q, qw, qh, base, W, H, coord.x, coord.y, otherPen')
  {
    pen', otherPen' := pen, otherPen;
    if otherPen'.x >= qw {
      PastingWrap(r, q, qw, qh, base, W, H, coord.x, coord.y, otherPen', i);
      otherPen' := IVec2(0, otherPen'.y + 1);
      pen' := IVec2(coord.x, pen'.y + 1);
    }
    r' := PasteCell(r, q, qw, qh, base, W, H, coord, pen', otherPen', i);
    pen' := IVec2(pen'.x + 1, pen'.y);
    otherPen' := IVec2(otherPen'.x + 1, otherPen'.y);
  }

  /** The pixel under the inserted image's cursor is copied to the pixel
      under this image's cursor. */
  method PasteCell(r: seq<Argb32>, q: seq<Argb32>, qw: u32, qh: u32, ghost base: seq<Argb32>, W: u32, H: u32, coord: IVec2,
                   pen: IVec2, otherPen: IVec2, i: u32)
    returns (r': seq<Argb32>)
    requires |r| < 0x1_0000_0000 && |q| == qw * qh && coord.x + qw <= W && coord.y + qh <= H
    requires otherPen.x < qw && i == qw * otherPen.y + otherPen.x && i < |q|
    requires pen.x == otherPen.x + coord.x && pen.y == otherPen.y + coord.y
    requires Pasting(r, q, qw, qh, base, W, H, coord.x, coord.y, otherPen)
    ensures otherPen.y < qh && otherPen.x + 1 < 0x1_0000_0000
    ensures Pasting(r', q, qw, qh, base, W, H, coord.x, coord.y, IVec2(otherPen.x + 1, otherPen.y))
  {
    PastingStep(r, q, qw, qh, base, W, H, coord.x, coord.y, otherPen, i);
    var t, k := NthElementIndex(pen, W), NthElementIndex(otherPen, qw);
    assert k == i && t == W * (otherPen.y + coord.y) + (otherPen.x + coord.x);
    r' := r[t := q[k]];
  }

  /** The pixel loop of `file`: each pixel's four bytes, in storage order. */
  method AppendPixels(v: seq<u8>, p: seq<Argb32>) returns (r: seq<u8>)
    ensures r == v + PixelsBytes(p)
  {
    r := v;
    var i := 0;
    while i < |p|
      invariant i <= |p| && r == v + PixelsBytes(p[..i])
    {
      assert p[..i + 1][..i] == p[..i];
      r := r + PixelBytes(p[i]);
      i := i + 1;
    }
    assert p[..i] == p;
  }
}
