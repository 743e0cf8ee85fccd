/** Pixels, regions and the row-major index arithmetic of the BGRA canvas,
    with the images that its in-place operations are specified by.

    An image is a sequence of pixels together with a width: pixel (x, y)
    lives at index `width * y + x` (row 0 is the bottom row of the BMP
    file).  `At` reads a pixel, `Image` builds one from a pixel function. */
module Pixels {
  import opened Util

  /** `argb32`: one pixel, its channels in the order b, g, r, a. */
  datatype Argb32 = Argb32(b: u8, g: u8, r: u8, a: u8)

  /** The default colour of construction, `resize` and `extrude`. */
  const WHITE: Argb32 := Argb32(0xFF, 0xFF, 0xFF, 0xFF)

  /** `argb32 ==`: all four channels agree. */
  function Argb32Eq(p: Argb32, q: Argb32): (r: bool)
    ensures r <==> p == q
  {
    p.r == q.r && p.g == q.g && p.b == q.b && p.a == q.a
  }

  /** The state of a `bitmap_image` held as a value (inside a rendered
      glyph or a texture atlas entry). */
  datatype Picture = Picture(width: u32, height: u32, pixels: seq<Argb32>) {
    predicate Wf()
    {
      |pixels| == width * height
    }
  }

  /** `font_face::bitmap_glyph`: a rendered glyph, its advance in pixels
      and its image. */
  datatype BitmapGlyph = BitmapGlyph(id: u16, advanceX: u32, image: Picture)

  /** `region`: a rectangle of pixels, `topRight` exclusive. */
  datatype Region = Region(bottomLeft: IVec2, topRight: IVec2) {
    /** Columns covered, in uint32 arithmetic. */
    function Width(): (r: u32)
      ensures bottomLeft.x <= topRight.x ==> r == topRight.x - bottomLeft.x
      ensures bottomLeft.x > topRight.x ==> r == topRight.x - bottomLeft.x + 0x1_0000_0000
    {
      U32(topRight.x - bottomLeft.x)
    }

    /** Rows covered, in uint32 arithmetic. */
    function Height(): (r: u32)
      ensures bottomLeft.y <= topRight.y ==> r == topRight.y - bottomLeft.y
      ensures bottomLeft.y > topRight.y ==> r == topRight.y - bottomLeft.y + 0x1_0000_0000
    {
      U32(topRight.y - bottomLeft.y)
    }
  }

  // ---------------------------------------------------------------------
  // Index arithmetic

  /** Adding a multiple of `m` does not change a remainder. */
  lemma AddMultipleMod(k: int, v: int, m: int)
    requires m > 0
    ensures (m * k + v) % m == v % m
  {
    var q := v / m;
    var r := v % m;
    assert v == m * q + r;
    assert m * k + v == m * (k + q) + r;
    DivModUnique(m * k + v, m, k + q, r);
  }

  /** Euclidean division is unique. */
  lemma DivModUnique(x: int, m: int, q: int, r: int)
    requires m > 0 && 0 <= r < m && x == m * q + r
    ensures x / m == q && x % m == r
  {
    var q' := x / m;
    var r' := x % m;
    var t := q - q';
    assert m * q' + r' == m * q + r;
    assert m * t == r' - r by {
      assert m * t == m * q - m * q';
    }
    if t >= 1 {
      MulAtLeast(m, t);
    } else if t <= -1 {
      MulAtLeast(m, -t);
    }
  }

  lemma MulAtLeast(m: int, t: int)
    requires m > 0 && t >= 1
    ensures m * t >= m
  {
    assert m * t == m + m * (t - 1);
  }

  lemma MulPred(w: int, y: int)
    ensures (w - 1) * y == w * y - y
  {
  }

  /** Adding a multiple of 2^32 does not change a uint32 conversion. */
  lemma U32Shift(a: int, k: int)
    ensures U32(a + 0x1_0000_0000 * k) == U32(a)
  {
    AddMultipleMod(k, a, 0x1_0000_0000);
  }

  /** A uint32 conversion can be taken before or after an addition. */
  lemma U32Sum(a: int, b: int)
    ensures U32(U32(a) + b) == U32(a + b)
  {
    var q := a / 0x1_0000_0000;
    assert a + b == U32(a) + b + 0x1_0000_0000 * q;
    U32Shift(U32(a) + b, q);
  }

  lemma U32Add(a: int, b: int)
    ensures U32(U32(a) + U32(b)) == U32(a + b)
  {
    U32Sum(a, U32(b));
    U32Sum(b, a);
  }

  /** A uint32 conversion can be taken before or after a multiplication. */
  lemma U32Mul(a: int, b: int)
    ensures U32(U32(a) * b) == U32(a * b)
  {
    U32MulAdd(a, b, 0);
  }

  lemma U32MulAdd(a: int, b: int, c: int)
    ensures U32(U32(a) * b + c) == U32(a * b + c)
  {
    var q := a / 0x1_0000_0000;
    var r := U32(a);
    assert a == r + 0x1_0000_0000 * q;
    assert a * b == r * b + 0x1_0000_0000 * (q * b);
    U32Shift(r * b + c, q * b);
  }

  /** `m_get_nth_element_index`: `(width - 1) * y + (x + y)` in uint32
      arithmetic, which is the row-major index `width * y + x` modulo 2^32
      (also for width 0, where `width - 1` wraps). */
  function NthElementIndex(c: IVec2, width: u32): (r: u32)
    ensures r == U32(width * c.y + c.x)
  {
    var a := U32(width - 1);
    var m := U32(a * c.y);
    IndexWraps(width, c.x, c.y);
    U32(m + U32(c.x + c.y))
  }

  lemma IndexWraps(width: u32, x: u32, y: u32)
    ensures U32(U32(U32(width - 1) * y) + U32(x + y)) == U32(width * y + x)
  {
    var p := U32(width - 1) * y;
    U32Add(p, x + y);
    U32MulAdd(width - 1, y, x + y);
    MulPred(width, y);
  }

  /** `m_get_nth_element_coordinate`: the row is `i / width`; for rows past
      the first the column is recovered by negating
      `(width - 1) * y + y - i` in uint32 arithmetic and passing it through
      an `int`. */
  function NthElementCoordinate(i: u32, width: u32): (r: IVec2)
    requires width > 0
    ensures r == IVec2(i % width, i / width)
  {
    var y := i / width;
    if y == 0 then
      DivModUnique(i, width, 0, i);
      IVec2(i, y)
    else
      IVec2(NegatedColumn(i, width, y), y)
  }

  /** `((width - 1) * y + y - i) * -1` in uint32 arithmetic, through an
      `int` and back: the column of index `i` in row `y`. */
  function NegatedColumn(i: u32, width: u32, y: nat): (r: u32)
    requires width > 0 && y == i / width && y > 0
    ensures r == i % width
  {
    CoordinateColumn(i, width, y);
    U32(I32(U32(U32(U32(U32(U32(width - 1) * y) + y) - i) * 0xFFFF_FFFF)))
  }

  lemma CoordinateColumn(i: u32, width: u32, y: nat)
    requires width > 0 && y == i / width && y > 0
    ensures U32(I32(U32(U32(U32(U32(U32(width - 1) * y) + y) - i) * 0xFFFF_FFFF))) == i % width
  {
    var col := i % width;
    var wy := width * y;
    assert i == wy + col;
    MulAtLeast(width, y);
    RowStartWraps(width, y);
    assert wy - i == -col;
    NegatedColumnValue(col);
  }

  /** `(width - 1) * y + y` in uint32 arithmetic is the row start
      `width * y` when that fits. */
  lemma RowStartWraps(width: u32, y: nat)
    requires width > 0 && width * y < 0x1_0000_0000
    ensures U32(U32(U32(width - 1) * y) + y) == width * y
  {
    MulPred(width, y);
    U32Sum(U32(width - 1) * y, y);
    U32MulAdd(width - 1, y, y);
    MulMono(width, 0, y);
  }

  /** Negating `-col` by a uint32 multiplication by 0xFFFF_FFFF and
      passing it through an `int` gives back `col` below 2^31. */
  lemma NegatedColumnValue(col: int)
    requires 0 <= col < 0x8000_0000
    ensures U32(I32(U32(U32(-col) * 0xFFFF_FFFF))) == col
  {
    U32Mul(-col, 0xFFFF_FFFF);
    assert -col * 0xFFFF_FFFF == col + 0x1_0000_0000 * (-col);
    U32Shift(col, -col);
  }

  /** Index and coordinate are inverse on the cells of an image that
      fits in 32 bits. */
  lemma CoordinateOfIndex(c: IVec2, width: u32)
    requires c.x < width && width * c.y + c.x < 0x1_0000_0000
    ensures NthElementCoordinate(NthElementIndex(c, width), width) == c
  {
    var i := NthElementIndex(c, width);
    MulMono(width, 0, c.y);
    assert i == width * c.y + c.x;
    DivModUnique(i, width, c.y, c.x);
    assert NthElementCoordinate(i, width) == IVec2(i % width, i / width);
  }

  /** Coordinate then index gives back the index. */
  lemma IndexOfCoordinate(i: u32, width: u32)
    requires width > 0
    ensures NthElementIndex(NthElementCoordinate(i, width), width) == i
  {
    assert width * (i / width) + i % width == i;
  }

  // ---------------------------------------------------------------------
  // Images

  /** A product of a row below `h` and a column below `w` stays below
      `w * h`. */
  lemma CellBound(w: nat, h: nat, x: nat, y: nat)
    requires x < w && y < h
    ensures 0 <= w * y && w * y + x < w * h
  {
    MulAtLeast(w, h - y);
    assert w * h == w * y + w * (h - y);
  }

  /** Pixel (x, y) of a row-major image of width `w`; white past the end. */
  function At(p: seq<Argb32>, w: nat, x: nat, y: nat): Argb32
  {
    if w * y + x < |p| then p[w * y + x] else WHITE
  }

  /** The `w` × `h` image whose pixel (x, y) is `f(x, y)`. */
  function Image(w: nat, h: nat, f: (nat, nat) -> Argb32): (r: seq<Argb32>)
    ensures |r| == w * h
  {
    seq(w * h, k requires 0 <= k < w * h => f(k % w, k / w))
  }

  /** Reading a pixel of `Image` applies its pixel function. */
  lemma AtImage(w: nat, h: nat, f: (nat, nat) -> Argb32, x: nat, y: nat)
    requires x < w && y < h
    ensures At(Image(w, h, f), w, x, y) == f(x, y)
  {
    CellBound(w, h, x, y);
    DivModUnique(w * y + x, w, y, x);
  }

  /** Two `w` × `h` images that agree on every pixel are equal. */
  lemma SameImage(p: seq<Argb32>, q: seq<Argb32>, w: nat, h: nat)
    requires |p| == w * h && |q| == w * h
    requires forall x: nat, y: nat :: x < w && y < h ==> At(p, w, x, y) == At(q, w, x, y)
    ensures p == q
  {
    forall k | 0 <= k < |p|
      ensures p[k] == q[k]
    {
      var x, y := k % w, k / w;
      assert k == w * y + x;
      assert At(p, w, x, y) == At(q, w, x, y);
    }
  }

  // ---------------------------------------------------------------------
  // Removing a rectangle (`m_delete_region`)

  /** Index `k` of a width-`w` image lies in the rectangle from `s`
      (inclusive) to `e` (exclusive). */
  predicate InRect(k: nat, w: nat, s: IVec2, e: IVec2)
  {
    w > 0 && s.x <= k % w < e.x && s.y <= k / w < e.y
  }

  /** The cells of the first `n` indexes that lie in the rectangle: the
      indexes `m_delete_region` collects. */
  function RectCells(w: nat, s: IVec2, e: IVec2, n: nat): set<nat>
  {
    set k: nat | k < n && InRect(k, w, s, e)
  }

  /** The first `n` pixels of `p` without those whose index is in `del`,
      in their original order. */
  function KeptPrefix(p: seq<Argb32>, del: set<nat>, n: nat): (r: seq<Argb32>)
    requires n <= |p|
    ensures |r| <= n
  {
    if n == 0 then []
    else KeptPrefix(p, del, n - 1) + (if n - 1 in del then [] else [p[n - 1]])
  }

  /** The image with every pixel of the rectangle removed. */
  function Without(p: seq<Argb32>, w: nat, s: IVec2, e: IVec2): seq<Argb32>
  {
    KeptPrefix(p, RectCells(w, s, e, |p|), |p|)
  }

  /** `k` is cell (x, y) of a width-`w` image. */
  lemma InRectCell(k: nat, w: nat, s: IVec2, e: IVec2, x: nat, y: nat)
    requires x < w && k == w * y + x
    ensures k % w == x && k / w == y
    ensures InRect(k, w, s, e) <==> s.x <= x < e.x && s.y <= y < e.y
  {
    DivModUnique(k, w, y, x);
  }

  /** The cells of row `y` of a full-height column band [a, b) are in the
      rectangle exactly at columns a .. b - 1. */
  lemma BandRow(w: u32, h: u32, a: u32, b: u32, y: nat, base: nat)
    requires a <= b <= w && y < h && base == w * y
    ensures base + w <= w * h
    ensures forall j :: base <= j < base + w ==> (j in RectCells(w, IVec2(a, 0), IVec2(b, h), w * h) <==> a <= j - base < b)
  {
    MulMono(w, y + 1, h);
    forall j | base <= j < base + w
      ensures j in RectCells(w, IVec2(a, 0), IVec2(b, h), w * h) <==> a <= j - base < b
    {
      InRectCell(j, w, IVec2(a, 0), IVec2(b, h), j - base, y);
    }
  }

  /** A run of kept cells is appended whole. */
  lemma {:induction false} KeptRun(p: seq<Argb32>, del: set<nat>, lo: nat, hi: nat)
    requires lo <= hi <= |p|
    requires forall j :: lo <= j < hi ==> j !in del
    ensures KeptPrefix(p, del, hi) == KeptPrefix(p, del, lo) + p[lo .. hi]
    decreases hi - lo
  {
    if hi == lo {
      assert p[lo .. hi] == [];
    } else {
      KeptRun(p, del, lo, hi - 1);
      assert p[lo .. hi] == p[lo .. hi - 1] + [p[hi - 1]];
    }
  }

  /** A run of dropped cells adds nothing. */
  lemma {:induction false} DroppedRun(p: seq<Argb32>, del: set<nat>, lo: nat, hi: nat)
    requires lo <= hi <= |p|
    requires forall j :: lo <= j < hi ==> j in del
    ensures KeptPrefix(p, del, hi) == KeptPrefix(p, del, lo)
    decreases hi - lo
  {
    if hi > lo {
      DroppedRun(p, del, lo, hi - 1);
    }
  }

  /** A row starting at index `base` whose cells are in `del` exactly at
      columns a .. b - 1 keeps the columns left of `a` and those from `b`
      on. */
  lemma KeptRow(p: seq<Argb32>, del: set<nat>, w: nat, a: nat, b: nat, base: nat)
    requires a <= b <= w && base + w <= |p|
    requires forall j :: base <= j < base + w ==> (j in del <==> a <= j - base < b)
    ensures KeptPrefix(p, del, base + w)
         == KeptPrefix(p, del, base) + p[base .. base + a] + p[base + b .. base + w]
  {
    KeptRun(p, del, base, base + a);
    DroppedRun(p, del, base + a, base + b);
    KeptRun(p, del, base + b, base + w);
  }

  /** The rows of a width-`w` image with the column band [a, b) cut out
      of each (a trailing partial row is dropped). */
  function BandRows(q: seq<Argb32>, w: nat, a: nat, b: nat): (r: seq<Argb32>)
    requires a <= b <= w
    decreases |q|
  {
    if w == 0 || |q| < w then []
    else q[..a] + q[b..w] + BandRows(q[w..], w, a, b)
  }

  /** Cutting the band out of whole rows followed by more rows cuts it out
      of each part. */
  lemma {:induction false} BandRowsAppend(q: seq<Argb32>, t: seq<Argb32>, w: nat, a: nat, b: nat, k: nat)
    requires a <= b <= w && 0 < w && |q| == w * k
    ensures BandRows(q + t, w, a, b) == BandRows(q, w, a, b) + BandRows(t, w, a, b)
    decreases k
  {
    if k == 0 {
      assert q == [];
      assert q + t == t;
    } else {
      assert w * k == w + w * (k - 1);
      var qt := q + t;
      assert qt[..a] == q[..a] && qt[b..w] == q[b..w];
      assert qt[w..] == q[w..] + t;
      BandRowsAppend(q[w..], t, w, a, b, k - 1);
    }
  }

  /** Removing a full-height column band keeps exactly the band rows. */
  lemma {:induction false} KeptIsBandRows(p: seq<Argb32>, w: u32, h: u32, a: u32, b: u32, rows: nat)
    requires |p| == w * h && a <= b <= w && 0 < w && rows <= h
    ensures w * rows <= |p|
    ensures KeptPrefix(p, RectCells(w, IVec2(a, 0), IVec2(b, h), |p|), w * rows) == BandRows(p[..w * rows], w, a, b)
  {
    MulMono(w, rows, h);
    if rows == 0 {
      assert p[..w * rows] == [];
    } else {
      KeptIsBandRows(p, w, h, a, b, rows - 1);
      var base := w * (rows - 1);
      MulStep(w, rows);
      BandRow(w, h, a, b, rows - 1, base);
      KeptRow(p, RectCells(w, IVec2(a, 0), IVec2(b, h), |p|), w, a, b, base);
      BandRowsLastRow(p, w, a, b, rows - 1, base);
    }
  }

  /** The band rows of one more whole row. */
  lemma BandRowsLastRow(p: seq<Argb32>, w: nat, a: nat, b: nat, k: nat, base: nat)
    requires a <= b <= w && 0 < w && base == w * k && base + w <= |p|
    ensures BandRows(p[..base + w], w, a, b)
         == BandRows(p[..base], w, a, b) + p[base .. base + a] + p[base + b .. base + w]
  {
    var row := p[base .. base + w];
    assert p[..base + w] == p[..base] + row;
    BandRowsAppend(p[..base], row, w, a, b, k);
    assert row[w..] == [];
    assert BandRows(row, w, a, b) == row[..a] + row[b..w] + [];
    assert row[..a] == p[base .. base + a] && row[b..w] == p[base + b .. base + w];
  }

  /** Removing a full-height column band from a `w` × `h` image. */
  lemma ColumnsRemoved(p: seq<Argb32>, w: u32, h: u32, a: u32, b: u32)
    requires |p| == w * h && a <= b <= w && 0 < w
    ensures Without(p, w, IVec2(a, 0), IVec2(b, h)) == BandRows(p, w, a, b)
  {
    KeptIsBandRows(p, w, h, a, b, h);
    assert p[..w * h] == p;
  }

  /** The band rows of a `w` × `h` image form a `w - (b - a)` × `h` image. */
  lemma {:induction false} BandRowsLength(q: seq<Argb32>, w: nat, a: nat, b: nat, h: nat)
    requires a <= b <= w && 0 < w && |q| == w * h
    ensures |BandRows(q, w, a, b)| == (w - (b - a)) * h
  {
    if h > 0 {
      assert w * h == w + w * (h - 1);
      BandRowsLength(q[w..], w, a, b, h - 1);
      assert (w - (b - a)) * h == (w - (b - a)) + (w - (b - a)) * (h - 1);
    }
  }

  /** Pixel (x, y) of the band rows is the pixel of the original row whose
      column is shifted past the band when it is at or right of `a`. */
  lemma {:induction false} AtBandRows(q: seq<Argb32>, w: nat, a: nat, b: nat, h: nat, w': nat, x: nat, y: nat)
    requires a <= b <= w && |q| == w * h && w' == w - (b - a) && x < w' && y < h
    ensures At(BandRows(q, w, a, b), w', x, y) == At(q, w, if x < a then x else x + (b - a), y)
  {
    var x0 := if x < a then x else x + (b - a);
    MulStep(w, h);
    var r := BandRows(q, w, a, b);
    assert r == q[..a] + q[b..w] + BandRows(q[w..], w, a, b);
    if y == 0 {
      AtFirstRow(r, w', x);
      AtFirstRow(q, w, x0);
    } else {
      AtBandRows(q[w..], w, a, b, h - 1, w', x, y - 1);
      AtNextRow(r, w', x, y);
      assert r[w'..] == BandRows(q[w..], w, a, b);
      AtNextRow(q, w, x0, y);
    }
  }

  /** Row 0 of an image is its first `w` pixels. */
  lemma AtFirstRow(p: seq<Argb32>, w: nat, x: nat)
    requires x < w <= |p|
    ensures At(p, w, x, 0) == p[x]
  {
    assert w * 0 + x == x;
  }

  /** Row `y` of an image is row `y - 1` of the image without its first row. */
  lemma AtNextRow(p: seq<Argb32>, w: nat, x: nat, y: nat)
    requires 0 < y && w <= |p|
    ensures At(p, w, x, y) == At(p[w..], w, x, y - 1)
  {
    MulStep(w, y);
  }

  /** The cells of a `w` × `h` image in the full-width row band [c, d) are
      exactly the indexes from `w * c` up to `w * d`. */
  lemma RowBand(w: u32, h: u32, c: u32, d: u32, k: nat)
    requires c <= d <= h && k < w * h
    ensures w * c <= w * d
    ensures InRect(k, w, IVec2(0, c), IVec2(w, d)) <==> w * c <= k < w * d
  {
    MulMono(w, c, d);
    var x, y := k % w, k / w;
    assert k == w * y + x;
    if y < c { CellBound(w, c, x, y); } else { MulMono(w, c, y); }
    if y < d { CellBound(w, d, x, y); } else { MulMono(w, d, y); }
  }

  /** Dropping the cells whose index lies in [lo, hi) cuts that slice out. */
  lemma SliceRemoved(p: seq<Argb32>, del: set<nat>, lo: nat, hi: nat)
    requires lo <= hi <= |p|
    requires forall k :: 0 <= k < |p| ==> (k in del <==> lo <= k < hi)
    ensures KeptPrefix(p, del, |p|) == p[..lo] + p[hi ..]
  {
    KeptRun(p, del, 0, lo);
    DroppedRun(p, del, lo, hi);
    KeptRun(p, del, hi, |p|);
    assert p[0 .. lo] == p[..lo] && p[hi .. |p|] == p[hi ..];
  }

  /** Removing a full-width row band [c, d) cuts that slice out of the
      pixel sequence. */
  lemma RowsRemoved(p: seq<Argb32>, w: u32, h: u32, c: u32, d: u32)
    requires |p| == w * h && c <= d <= h
    ensures w * c <= w * d <= |p|
    ensures Without(p, w, IVec2(0, c), IVec2(w, d)) == p[..w * c] + p[w * d ..]
  {
    MulMono(w, c, d);
    MulMono(w, d, h);
    var del := RectCells(w, IVec2(0, c), IVec2(w, d), |p|);
    forall k | 0 <= k < |p|
      ensures k in del <==> w * c <= k < w * d
    {
      RowBand(w, h, c, d, k);
    }
    SliceRemoved(p, del, w * c, w * d);
  }

  lemma MulStep(m: nat, y: nat)
    requires y > 0
    ensures m * y == m + m * (y - 1) && m * (y - 1) >= 0 && m <= m * y
  {
  }

  lemma MulMono(w: nat, a: nat, b: nat)
    requires a <= b
    ensures w * a <= w * b
  {
    assert w * b == w * a + w * (b - a);
  }

  /** Reading the image left after removing rows [c, d). */
  lemma AtRowsRemoved(p: seq<Argb32>, w: nat, h: nat, c: nat, d: nat, x: nat, y: nat)
    requires |p| == w * h && c <= d <= h && x < w && y < h - (d - c)
    ensures w * c <= w * d <= |p|
    ensures At(p[..w * c] + p[w * d ..], w, x, y) == At(p, w, x, if y < c then y else y + (d - c))
  {
    MulMono(w, c, d);
    MulMono(w, d, h);
    var q := p[..w * c] + p[w * d ..];
    var y0 := if y < c then y else y + (d - c);
    CellBound(w, h, x, y0);
    var i0 := w * y0 + x;
    assert At(p, w, x, y0) == p[i0];
    if y < c {
      CellBound(w, c, x, y);
      assert q[w * y + x] == p[i0];
    } else {
      var k := w * (y - c) + x;
      CellBound(w, h - d, x, y - c);
      MulSplit(w, h, d);
      MulSplit(w, y, c);
      MulSplit(w, y0, d);
      assert w * y + x == w * c + k < |q|;
      assert i0 == w * d + k;
      assert q[w * c + k] == p[i0];
    }
  }

  /** Products grow with both factors. */
  lemma MulBoth(a: nat, b: nat, c: nat, d: nat)
    requires a <= c && b <= d
    ensures a * b <= c * d
  {
    MulMono(a, b, d);
    MulMono(d, a, c);
  }

  lemma MulSplit(w: nat, y: nat, c: nat)
    requires c <= y
    ensures w * y == w * c + w * (y - c)
  {
  }

}
