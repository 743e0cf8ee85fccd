/** The images that the in-place operations of the canvas produce, each as
    a function of the old pixels, together with the loop states that lead
    to them: a row-major walk that has visited some cells of a block has
    produced an image that agrees with the final one on those cells and
    with the old one elsewhere. */
module Canvas {
  import opened Util
  import opened Pixels

  // ---------------------------------------------------------------------
  // Walks over a block

  /** A walk position in signed coordinates: a backward walk steps to
      column `x - 1` past the left edge of its block. */
  datatype Cursor = Cursor(x: int, y: int)

  /** Cell (x, y) of a block has been visited by a row-major walk standing
      at `pos`: forward walks go up the rows and right along each row,
      backward walks down the rows and left along each row. */
  predicate Done(x: int, y: int, pos: Cursor, forward: bool)
  {
    if forward then y < pos.y || (y == pos.y && x < pos.x)
    else y > pos.y || (y == pos.y && x > pos.x)
  }

  /** Cell (x, y) lies in the `w` × `h` block whose corner is (dx, dy). */
  predicate InBlock(x: int, y: int, dx: int, dy: int, w: int, h: int)
  {
    dx <= x < dx + w && dy <= y < dy + h
  }

  /** A walk that has taken `i` steps, `dx` of them in the current row,
      over a `w` × `h` block with `i < w * h` is still inside the block. */
  lemma CursorRow(w: nat, h: nat, i: nat, dx: nat, dy: nat)
    requires dx < w && i == w * dy + dx && i < w * h
    ensures dy < h
  {
    if dy >= h {
      MulMono(w, h, dy);
    }
  }

  /** A walk that has taken all `w * h` steps of a block, lazily wrapping
      rows, stands just past the last cell of the top row. */
  lemma CursorEnd(w: nat, h: nat, dx: nat, dy: nat)
    requires 0 < dx <= w && w * dy + dx == w * h
    ensures dy + 1 == h && dx == w
  {
    if dy >= h {
      MulMono(w, h, dy);
    } else {
      assert w * h == w * dy + w * (h - dy);
      if h - dy >= 2 {
        MulStep(w, h - dy);
        MulAtLeast(w, h - dy - 1);
      }
    }
  }

  /** A forward walk over a `w`-wide block that has visited every cell of
      all rows below `dy + 1` has visited the whole `w` × (`dy` + 1) block. */
  lemma WalkCovers(w: nat, h: nat, pos: IVec2)
    requires pos.x == w && pos.y + 1 == h
    ensures forall x, y :: 0 <= x < w && 0 <= y < h ==> Done(x, y, Cursor(pos.x, pos.y), true)
  {
  }

  /** Every index in `indexes` is that of a cell (`xs[t]`, `ys[t]`) of the
      rectangle from `s` to `e` (exclusive) in a width-`w` image, and one
      a forward walk standing at `c` has already passed. */
  ghost predicate Listed(indexes: seq<u32>, xs: seq<int>, ys: seq<int>, w: nat, s: IVec2, e: IVec2, c: Cursor)
  {
    |xs| == |indexes| && |ys| == |indexes|
    && forall t: int :: 0 <= t < |indexes| ==>
         indexes[t] == w * ys[t] + xs[t] && s.x <= xs[t] < e.x && s.y <= ys[t] < e.y
         && (ys[t] < c.y || (ys[t] == c.y && xs[t] < c.x))
  }

  /** Every cell of the rectangle that a forward walk standing at `c` has
      passed has its index in `indexes`. */
  ghost predicate Covered(indexes: seq<u32>, w: nat, s: IVec2, e: IVec2, c: Cursor)
  {
    forall x: int, y: int :: s.x <= x < e.x && s.y <= y && Done(x, y, c, true) ==> w * y + x in indexes
  }

  /** The walk state of `m_delete_region`'s first loop over the rectangle
      from `s` to `e` (exclusive) in a width-`w` image: `i` cells visited,
      the walk standing at `pos` (wrapped lazily), and `indexes` holding the
      index of each visited cell, whose coordinates are `xs` and `ys`. */
  ghost predicate Collecting(indexes: seq<u32>, xs: seq<int>, ys: seq<int>, w: nat, s: IVec2, e: IVec2, pos: IVec2, i: nat)
  {
    s.x <= pos.x <= e.x && s.y <= pos.y
    && i == (e.x - s.x) * (pos.y - s.y) + (pos.x - s.x)
    && (i == 0 ==> pos == s)
    && Listed(indexes, xs, ys, w, s, e, Cursor(pos.x, pos.y))
    && Covered(indexes, w, s, e, Cursor(pos.x, pos.y))
  }

  /** Wrapping a walk from the end of a row of the rectangle to the start of
      the next keeps what it has listed and covered. */
  lemma ListedWrap(indexes: seq<u32>, xs: seq<int>, ys: seq<int>, w: nat, s: IVec2, e: IVec2, c: Cursor)
    requires Listed(indexes, xs, ys, w, s, e, c) && Covered(indexes, w, s, e, c) && c.x == e.x
    ensures Listed(indexes, xs, ys, w, s, e, Cursor(s.x, c.y + 1))
    ensures Covered(indexes, w, s, e, Cursor(s.x, c.y + 1))
  {
    var next := Cursor(s.x, c.y + 1);
    forall t | 0 <= t < |indexes|
      ensures Done(xs[t], ys[t], next, true)
    {
      assert Done(xs[t], ys[t], c, true);
    }
    forall x: int, y: int | s.x <= x < e.x && s.y <= y && Done(x, y, next, true)
      ensures w * y + x in indexes
    {
      assert Done(x, y, c, true);
    }
  }

  /** Recording the cell the walk stands on and stepping right keeps what it
      has listed. */
  lemma ListedStep(indexes: seq<u32>, xs: seq<int>, ys: seq<int>, w: nat, s: IVec2, e: IVec2, c: Cursor)
    requires Listed(indexes, xs, ys, w, s, e, c)
    requires s.x <= c.x < e.x && s.y <= c.y < e.y && 0 <= w * c.y + c.x < 0x1_0000_0000
    ensures Listed(indexes + [w * c.y + c.x], xs + [c.x], ys + [c.y], w, s, e, Cursor(c.x + 1, c.y))
  {
    var indexes', xs', ys' := indexes + [w * c.y + c.x], xs + [c.x], ys + [c.y];
    forall t | 0 <= t < |indexes|
      ensures indexes'[t] == w * ys'[t] + xs'[t] && s.x <= xs'[t] < e.x && s.y <= ys'[t] < e.y
              && Done(xs'[t], ys'[t], Cursor(c.x + 1, c.y), true)
    {
      assert indexes'[t] == indexes[t] && xs'[t] == xs[t] && ys'[t] == ys[t];
    }
  }

  /** Recording the cell the walk stands on and stepping right keeps every
      passed cell covered. */
  lemma CoveredStep(indexes: seq<u32>, w: nat, s: IVec2, e: IVec2, c: Cursor, j: u32)
    requires Covered(indexes, w, s, e, c) && j == w * c.y + c.x
    ensures Covered(indexes + [j], w, s, e, Cursor(c.x + 1, c.y))
  {
    var next := Cursor(c.x + 1, c.y);
    forall x: int, y: int | s.x <= x < e.x && s.y <= y && Done(x, y, next, true)
      ensures w * y + x in indexes + [j]
    {
      if x == c.x && y == c.y {
        assert (indexes + [j])[|indexes|] == j;
      } else {
        assert Done(x, y, c, true);
      }
    }
  }

  /** Wrapping to the start of the next row when the current one is done. */
  lemma CollectingWrap(indexes: seq<u32>, xs: seq<int>, ys: seq<int>, w: nat, s: IVec2, e: IVec2, pos: IVec2, i: nat)
    requires Collecting(indexes, xs, ys, w, s, e, pos, i) && pos.x == e.x && s.y <= e.y
    requires i < (e.x - s.x) * (e.y - s.y)
    ensures pos.y + 1 < e.y && Collecting(indexes, xs, ys, w, s, e, IVec2(s.x, pos.y + 1), i)
  {
    var bw, bh := e.x - s.x, e.y - s.y;
    MulStep(bw, pos.y + 1 - s.y);
    CursorRow(bw, bh, i, 0, pos.y + 1 - s.y);
    ListedWrap(indexes, xs, ys, w, s, e, Cursor(pos.x, pos.y));
  }

  /** Collecting the cell the walk stands on and stepping right. */
  lemma CollectingStep(indexes: seq<u32>, xs: seq<int>, ys: seq<int>, n: nat, w: nat, h: nat, s: IVec2, e: IVec2, pos: IVec2, i: nat)
    requires Collecting(indexes, xs, ys, w, s, e, pos, i) && n == w * h < 0x1_0000_0000
    requires pos.x < e.x <= w && s.y <= e.y <= h && i < (e.x - s.x) * (e.y - s.y)
    ensures pos.y < e.y && 0 <= w * pos.y && w * pos.y + pos.x < n
    ensures Collecting(indexes + [w * pos.y + pos.x], xs + [pos.x], ys + [pos.y], w, s, e, IVec2(pos.x + 1, pos.y), i + 1)
  {
    CursorRow(e.x - s.x, e.y - s.y, i, pos.x - s.x, pos.y - s.y);
    CellBound(w, h, pos.x, pos.y);
    ListedStep(indexes, xs, ys, w, s, e, Cursor(pos.x, pos.y));
    CoveredStep(indexes, w, s, e, Cursor(pos.x, pos.y), w * pos.y + pos.x);
  }

  /** Once the walk has covered the rectangle, the collected indexes are
      exactly the rectangle's cells. */
  lemma CollectEnd(indexes: seq<u32>, xs: seq<int>, ys: seq<int>, w: nat, s: IVec2, e: IVec2, pos: IVec2, i: nat, k: nat)
    requires Collecting(indexes, xs, ys, w, s, e, pos, i) && e.x <= w
    requires (pos.x == e.x && pos.y + 1 == e.y) || (pos == s && (e.x <= s.x || e.y <= s.y))
    ensures k in indexes <==> InRect(k, w, s, e)
  {
    if k in indexes {
      var t :| 0 <= t < |indexes| && indexes[t] == k;
      InRectCell(k, w, s, e, xs[t], ys[t]);
    }
    if InRect(k, w, s, e) {
      var x, y := k % w, k / w;
      assert k == w * y + x;
      assert Done(x, y, Cursor(pos.x, pos.y), true);
    }
  }

  /** A walk that has visited all `n` cells of the rectangle has collected
      exactly the rectangle's cells, in an image of `size` pixels. */
  lemma CollectDone(indexes: seq<u32>, xs: seq<int>, ys: seq<int>, w: nat, s: IVec2, e: IVec2, pos: IVec2, i: nat, size: nat)
    requires Collecting(indexes, xs, ys, w, s, e, pos, i) && s.x <= e.x <= w && s.y <= e.y
    requires i == (e.x - s.x) * (e.y - s.y) && (i > 0 ==> pos.x > s.x)
    ensures forall k: nat :: k < size ==> (k in indexes <==> k in RectCells(w, s, e, size))
  {
    var bw, bh := e.x - s.x, e.y - s.y;
    if i > 0 {
      CursorEnd(bw, bh, pos.x - s.x, pos.y - s.y);
    } else if bw > 0 && bh > 0 {
      MulMono(bw, 1, bh);
    }
    forall k: nat | k < size
      ensures k in indexes <==> k in RectCells(w, s, e, size)
    {
      CollectEnd(indexes, xs, ys, w, s, e, pos, i, k);
    }
  }

  // ---------------------------------------------------------------------
  // Single-colour images

  /** `n` pixels of colour `c`. */
  function Fill(n: nat, c: Argb32): (r: seq<Argb32>)
    ensures |r| == n && forall k :: 0 <= k < n ==> r[k] == c
  {
    seq(n, _ => c)
  }

  /** Every cell of a one-colour image has that colour. */
  lemma AtFill(w: nat, h: nat, c: Argb32, x: nat, y: nat)
    requires x < w && y < h
    ensures At(Fill(w * h, c), w, x, y) == c
  {
    CellBound(w, h, x, y);
  }

  /** Overwriting cell (cx, cy) changes pixel (cx, cy) and no other. */
  lemma AtUpdate(p: seq<Argb32>, w: nat, h: nat, cx: nat, cy: nat, v: Argb32, x: nat, y: nat)
    requires |p| == w * h && cx < w && cy < h && x < w
    ensures w * cy + cx < |p|
    ensures At(p[w * cy + cx := v], w, x, y) == if x == cx && y == cy then v else At(p, w, x, y)
  {
    CellBound(w, h, cx, cy);
    if w * y + x == w * cy + cx {
      DivModUnique(w * y + x, w, y, x);
      DivModUnique(w * cy + cx, w, cy, cx);
    }
  }

  // ---------------------------------------------------------------------
  // Windows (`crop`)

  /** The `nw` × `nh` window of the `w`-wide image `p` whose corner is at
      (dx, dy). */
  function Window(p: seq<Argb32>, w: nat, nw: nat, nh: nat, dx: nat, dy: nat): (r: seq<Argb32>)
    ensures |r| == nw * nh
  {
    Image(nw, nh, (x: nat, y: nat) => At(p, w, x + dx, y + dy))
  }

  lemma AtWindow(p: seq<Argb32>, w: nat, nw: nat, nh: nat, dx: nat, dy: nat, x: nat, y: nat)
    requires x < nw && y < nh
    ensures At(Window(p, w, nw, nh, dx, dy), nw, x, y) == At(p, w, x + dx, y + dy)
  {
    AtImage(nw, nh, (x: nat, y: nat) => At(p, w, x + dx, y + dy), x, y);
  }

  /** A window of a window is a window of the original image. */
  lemma WindowTwice(p: seq<Argb32>, w: nat, w1: nat, h1: nat, dx1: nat, dy1: nat, w2: nat, h2: nat, dx2: nat, dy2: nat)
    requires w2 + dx2 <= w1 && h2 + dy2 <= h1
    ensures Window(Window(p, w, w1, h1, dx1, dy1), w1, w2, h2, dx2, dy2) == Window(p, w, w2, h2, dx1 + dx2, dy1 + dy2)
  {
    var q := Window(p, w, w1, h1, dx1, dy1);
    forall x: nat, y: nat | x < w2 && y < h2
      ensures At(Window(q, w1, w2, h2, dx2, dy2), w2, x, y) == At(Window(p, w, w2, h2, dx1 + dx2, dy1 + dy2), w2, x, y)
    {
      AtWindow(q, w1, w2, h2, dx2, dy2, x, y);
      AtWindow(p, w, w1, h1, dx1, dy1, x + dx2, y + dy2);
      AtWindow(p, w, w2, h2, dx1 + dx2, dy1 + dy2, x, y);
    }
    SameImage(Window(q, w1, w2, h2, dx2, dy2), Window(p, w, w2, h2, dx1 + dx2, dy1 + dy2), w2, h2);
  }

  /** The whole-image window is the image. */
  lemma WindowWhole(p: seq<Argb32>, w: nat, h: nat)
    requires |p| == w * h
    ensures Window(p, w, w, h, 0, 0) == p
  {
    forall x: nat, y: nat | x < w && y < h
      ensures At(Window(p, w, w, h, 0, 0), w, x, y) == At(p, w, x, y)
    {
      AtWindow(p, w, w, h, 0, 0, x, y);
    }
    SameImage(Window(p, w, w, h, 0, 0), p, w, h);
  }

  /** Removing the full-height column band [a, b) leaves the image whose
      columns from `a` on are shifted left past the band. */
  lemma ColumnsWindow(p: seq<Argb32>, w: u32, h: u32, a: u32, b: u32, nw: nat)
    requires |p| == w * h && a <= b <= w && 0 < w && nw == w - (b - a)
    ensures |Without(p, w, IVec2(a, 0), IVec2(b, h))| == nw * h
    ensures forall x: nat, y: nat :: x < nw && y < h ==>
              At(Without(p, w, IVec2(a, 0), IVec2(b, h)), nw, x, y) == At(p, w, if x < a then x else x + (b - a), y)
  {
    ColumnsRemoved(p, w, h, a, b);
    BandRowsLength(p, w, a, b, h);
    forall x: nat, y: nat | x < nw && y < h
      ensures At(BandRows(p, w, a, b), nw, x, y) == At(p, w, if x < a then x else x + (b - a), y)
    {
      AtBandRows(p, w, a, b, h, nw, x, y);
    }
  }

  /** `crop`'s right phase: removing the last `n` columns. */
  lemma CropRight(p: seq<Argb32>, w: u32, h: u32, n: u32)
    requires |p| == w * h && 0 < n <= w
    ensures Without(p, w, IVec2(w - n, 0), IVec2(w, h)) == Window(p, w, w - n, h, 0, 0)
  {
    var nw := w - n;
    ColumnsWindow(p, w, h, w - n, w, nw);
    forall x: nat, y: nat | x < nw && y < h
      ensures At(Window(p, w, nw, h, 0, 0), nw, x, y) == At(p, w, x, y)
    {
      AtWindow(p, w, nw, h, 0, 0, x, y);
    }
    SameImage(Without(p, w, IVec2(w - n, 0), IVec2(w, h)), Window(p, w, nw, h, 0, 0), nw, h);
  }

  /** `crop`'s left phase: removing the first `n` columns. */
  lemma CropLeft(p: seq<Argb32>, w: u32, h: u32, n: u32)
    requires |p| == w * h && 0 < n <= w
    ensures Without(p, w, IVec2(0, 0), IVec2(n, h)) == Window(p, w, w - n, h, n, 0)
  {
    var nw := w - n;
    ColumnsWindow(p, w, h, 0, n, nw);
    forall x: nat, y: nat | x < nw && y < h
      ensures At(Window(p, w, nw, h, n, 0), nw, x, y) == At(p, w, x + n, y)
    {
      AtWindow(p, w, nw, h, n, 0, x, y);
    }
    SameImage(Without(p, w, IVec2(0, 0), IVec2(n, h)), Window(p, w, nw, h, n, 0), nw, h);
  }

  /** `crop`'s top phase: removing the last `n` rows. */
  lemma CropTop(p: seq<Argb32>, w: u32, h: u32, n: u32)
    requires |p| == w * h && n <= h
    ensures Without(p, w, IVec2(0, h - n), IVec2(w, h)) == Window(p, w, w, h - n, 0, 0)
  {
    RowsRemoved(p, w, h, h - n, h);
    var q := p[..w * (h - n)] + p[w * h ..];
    MulMono(w, h - n, h);
    assert |q| == w * (h - n);
    forall x: nat, y: nat | x < w && y < h - n
      ensures At(q, w, x, y) == At(Window(p, w, w, h - n, 0, 0), w, x, y)
    {
      AtRowsRemoved(p, w, h, h - n, h, x, y);
      AtWindow(p, w, w, h - n, 0, 0, x, y);
    }
    SameImage(q, Window(p, w, w, h - n, 0, 0), w, h - n);
  }

  /** `crop`'s bottom phase: removing the first `n` rows. */
  lemma CropBottom(p: seq<Argb32>, w: u32, h: u32, n: u32)
    requires |p| == w * h && n <= h
    ensures Without(p, w, IVec2(0, 0), IVec2(w, n)) == Window(p, w, w, h - n, 0, n)
  {
    RowsRemoved(p, w, h, 0, n);
    var q := p[..w * 0] + p[w * n ..];
    MulMono(w, n, h);
    assert |q| == w * (h - n) by {
      assert w * h == w * n + w * (h - n);
    }
    forall x: nat, y: nat | x < w && y < h - n
      ensures At(q, w, x, y) == At(Window(p, w, w, h - n, 0, n), w, x, y)
    {
      AtRowsRemoved(p, w, h, 0, n, x, y);
      AtWindow(p, w, w, h - n, 0, n, x, y);
    }
    SameImage(q, Window(p, w, w, h - n, 0, n), w, h - n);
  }

  // ---------------------------------------------------------------------
  // Pasting one image into another (`extrude`, `insert_other_bitmap_at_coordinate`)

  /** Pixel (x, y) of the `w`-wide image `base` with the `qw` × `qh` image
      `q` pasted with its corner at (dx, dy). */
  function PastedCell(q: seq<Argb32>, qw: nat, qh: nat, base: seq<Argb32>, w: nat, dx: nat, dy: nat, x: nat, y: nat): Argb32
  {
    if InBlock(x, y, dx, dy, qw, qh) then At(q, qw, x - dx, y - dy) else At(base, w, x, y)
  }

  /** The `w` × `h` image `base` with `q` pasted at (dx, dy). */
  function Pasted(q: seq<Argb32>, qw: nat, qh: nat, base: seq<Argb32>, w: nat, h: nat, dx: nat, dy: nat): (r: seq<Argb32>)
    ensures |r| == w * h
  {
    Image(w, h, (x: nat, y: nat) => PastedCell(q, qw, qh, base, w, dx, dy, x, y))
  }

  lemma AtPasted(q: seq<Argb32>, qw: nat, qh: nat, base: seq<Argb32>, w: nat, h: nat, dx: nat, dy: nat, x: nat, y: nat)
    requires x < w && y < h
    ensures At(Pasted(q, qw, qh, base, w, h, dx, dy), w, x, y) == PastedCell(q, qw, qh, base, w, dx, dy, x, y)
  {
    AtImage(w, h, (x: nat, y: nat) => PastedCell(q, qw, qh, base, w, dx, dy, x, y), x, y);
  }

  /** Pixel (x, y) after a forward walk standing at `pos` (in the
      coordinates of `q`) has copied the cells it visited. */
  function PastingCell(q: seq<Argb32>, qw: nat, qh: nat, base: seq<Argb32>, w: nat, dx: nat, dy: nat, pos: IVec2, x: nat, y: nat): Argb32
  {
    if InBlock(x, y, dx, dy, qw, qh) && Done(x - dx, y - dy, Cursor(pos.x, pos.y), true) then At(q, qw, x - dx, y - dy)
    else At(base, w, x, y)
  }

  /** The loop state of a paste: `cur` has the visited cells of `q` and the
      pixels of `base` elsewhere. */
  ghost predicate Pasting(cur: seq<Argb32>, q: seq<Argb32>, qw: nat, qh: nat, base: seq<Argb32>, w: nat, h: nat, dx: nat, dy: nat, pos: IVec2)
  {
    |cur| == w * h &&
    forall x: nat, y: nat :: x < w && y < h ==> At(cur, w, x, y) == PastingCell(q, qw, qh, base, w, dx, dy, pos, x, y)
  }

  /** Before the walk, the image is `base`. */
  lemma PastingStart(q: seq<Argb32>, qw: nat, qh: nat, base: seq<Argb32>, w: nat, h: nat, dx: nat, dy: nat)
    requires |base| == w * h
    ensures Pasting(base, q, qw, qh, base, w, h, dx, dy, IVec2(0, 0))
  {
  }

  /** Copying the cell the walk stands on, the `i`-th of `q`, and stepping
      right. */
  lemma PastingStep(cur: seq<Argb32>, q: seq<Argb32>, qw: nat, qh: nat, base: seq<Argb32>, w: nat, h: nat, dx: nat, dy: nat, pos: IVec2, i: nat)
    requires Pasting(cur, q, qw, qh, base, w, h, dx, dy, pos)
    requires |q| == qw * qh && |cur| < 0x1_0000_0000 && dx + qw <= w && dy + qh <= h
    requires pos.x < qw && i == qw * pos.y + pos.x && i < |q|
    ensures pos.y < qh && pos.x + 1 < 0x1_0000_0000
    ensures 0 <= w * (pos.y + dy) && w * (pos.y + dy) + (pos.x + dx) < |cur|
    ensures Pasting(cur[w * (pos.y + dy) + (pos.x + dx) := q[i]], q, qw, qh, base, w, h, dx, dy, IVec2(pos.x + 1, pos.y))
  {
    CursorRow(qw, qh, i, pos.x, pos.y);
    var cx, cy := pos.x + dx, pos.y + dy;
    CellBound(w, h, cx, cy);
    MulMono(w, 1, h);
    var next := IVec2(pos.x + 1, pos.y);
    var v := q[i];
    forall x: nat, y: nat | x < w && y < h
      ensures At(cur[w * cy + cx := v], w, x, y) == PastingCell(q, qw, qh, base, w, dx, dy, next, x, y)
    {
      AtUpdate(cur, w, h, cx, cy, v, x, y);
    }
  }

  /** Wrapping the walk to the start of the next row changes nothing. */
  lemma PastingWrap(cur: seq<Argb32>, q: seq<Argb32>, qw: nat, qh: nat, base: seq<Argb32>, w: nat, h: nat, dx: nat, dy: nat, pos: IVec2, i: nat)
    requires Pasting(cur, q, qw, qh, base, w, h, dx, dy, pos)
    requires pos.x == qw && i == qw * pos.y + pos.x && i < qw * qh && qh < 0x1_0000_0000
    ensures pos.y + 1 < qh && i == qw * (pos.y + 1)
    ensures Pasting(cur, q, qw, qh, base, w, h, dx, dy, IVec2(0, pos.y + 1))
  {
    MulStep(qw, pos.y + 1);
    CursorRow(qw, qh, i, 0, pos.y + 1);
  }

  /** Once the walk has visited every cell of `q`, the paste is complete. */
  lemma PastingEnd(cur: seq<Argb32>, q: seq<Argb32>, qw: nat, qh: nat, base: seq<Argb32>, w: nat, h: nat, dx: nat, dy: nat, pos: IVec2)
    requires Pasting(cur, q, qw, qh, base, w, h, dx, dy, pos)
    requires forall x, y :: 0 <= x < qw && 0 <= y < qh ==> Done(x, y, Cursor(pos.x, pos.y), true)
    ensures cur == Pasted(q, qw, qh, base, w, h, dx, dy)
  {
    forall x: nat, y: nat | x < w && y < h
      ensures At(cur, w, x, y) == At(Pasted(q, qw, qh, base, w, h, dx, dy), w, x, y)
    {
      AtPasted(q, qw, qh, base, w, h, dx, dy, x, y);
    }
    SameImage(cur, Pasted(q, qw, qh, base, w, h, dx, dy), w, h);
  }

  /** A paste walk that has gone through all `qw * qh` cells of `q` (the
      walk standing at the end of its last row, or at its start when `q` is
      empty) has pasted `q` whole. */
  lemma PastedAll(cur: seq<Argb32>, q: seq<Argb32>, qw: nat, qh: nat, base: seq<Argb32>, w: nat, h: nat, dx: nat, dy: nat, pos: IVec2)
    requires Pasting(cur, q, qw, qh, base, w, h, dx, dy, pos)
    requires pos.x <= qw && |q| == qw * pos.y + pos.x && |q| == qw * qh
    requires |q| == 0 ==> pos == IVec2(0, 0)
    requires |q| > 0 ==> pos.x > 0
    ensures cur == Pasted(q, qw, qh, base, w, h, dx, dy)
  {
    if |q| > 0 {
      CursorEnd(qw, qh, pos.x, pos.y);
      WalkCovers(qw, qh, pos);
    } else if qw > 0 && qh > 0 {
      MulMono(qw, 1, qh);
    }
    PastingEnd(cur, q, qw, qh, base, w, h, dx, dy, pos);
  }

  /** Pasting into a one-colour image twice pastes once at the summed
      offset. */
  lemma PastedTwice(p: seq<Argb32>, w: nat, h: nat, c: Argb32, w1: nat, h1: nat, dx1: nat, dy1: nat, w2: nat, h2: nat, dx2: nat, dy2: nat)
    requires w + dx1 <= w1 && h + dy1 <= h1 && w1 + dx2 <= w2 && h1 + dy2 <= h2
    ensures Pasted(Pasted(p, w, h, Fill(w1 * h1, c), w1, h1, dx1, dy1), w1, h1, Fill(w2 * h2, c), w2, h2, dx2, dy2)
         == Pasted(p, w, h, Fill(w2 * h2, c), w2, h2, dx1 + dx2, dy1 + dy2)
  {
    var q := Pasted(p, w, h, Fill(w1 * h1, c), w1, h1, dx1, dy1);
    var lhs := Pasted(q, w1, h1, Fill(w2 * h2, c), w2, h2, dx2, dy2);
    var rhs := Pasted(p, w, h, Fill(w2 * h2, c), w2, h2, dx1 + dx2, dy1 + dy2);
    forall x: nat, y: nat | x < w2 && y < h2
      ensures At(lhs, w2, x, y) == At(rhs, w2, x, y)
    {
      PastedTwiceAt(p, w, h, c, w1, h1, dx1, dy1, w2, h2, dx2, dy2, x, y);
    }
    SameImage(lhs, rhs, w2, h2);
  }

  lemma PastedTwiceAt(p: seq<Argb32>, w: nat, h: nat, c: Argb32, w1: nat, h1: nat, dx1: nat, dy1: nat, w2: nat, h2: nat, dx2: nat, dy2: nat, x: nat, y: nat)
    requires w + dx1 <= w1 && h + dy1 <= h1 && w1 + dx2 <= w2 && h1 + dy2 <= h2 && x < w2 && y < h2
    ensures At(Pasted(Pasted(p, w, h, Fill(w1 * h1, c), w1, h1, dx1, dy1), w1, h1, Fill(w2 * h2, c), w2, h2, dx2, dy2), w2, x, y)
         == At(Pasted(p, w, h, Fill(w2 * h2, c), w2, h2, dx1 + dx2, dy1 + dy2), w2, x, y)
  {
    MulMono(w1, 0, h1);
    MulMono(w2, 0, h2);
    var q := Pasted(p, w, h, Fill(w1 * h1, c), w1, h1, dx1, dy1);
    AtPasted(q, w1, h1, Fill(w2 * h2, c), w2, h2, dx2, dy2, x, y);
    AtPasted(p, w, h, Fill(w2 * h2, c), w2, h2, dx1 + dx2, dy1 + dy2, x, y);
    if InBlock(x, y, dx2, dy2, w1, h1) {
      AtPasted(p, w, h, Fill(w1 * h1, c), w1, h1, dx1, dy1, x - dx2, y - dy2);
    }
    PastedTwiceCell(p, q, w, h, c, w1, h1, dx1, dy1, w2, h2, dx2, dy2, x, y);
  }

  /** One cell of `PastedTwice`, with the inner paste `q` known only by
      the cell it contributes. */
  lemma PastedTwiceCell(p: seq<Argb32>, q: seq<Argb32>, w: nat, h: nat, c: Argb32, w1: nat, h1: nat, dx1: nat, dy1: nat,
                        w2: nat, h2: nat, dx2: nat, dy2: nat, x: nat, y: nat)
    requires w + dx1 <= w1 && h + dy1 <= h1 && w1 + dx2 <= w2 && h1 + dy2 <= h2 && x < w2 && y < h2
    requires InBlock(x, y, dx2, dy2, w1, h1) ==>
      At(q, w1, x - dx2, y - dy2) == PastedCell(p, w, h, Fill(w1 * h1, c), w1, dx1, dy1, x - dx2, y - dy2)
    ensures PastedCell(q, w1, h1, Fill(w2 * h2, c), w2, dx2, dy2, x, y)
         == PastedCell(p, w, h, Fill(w2 * h2, c), w2, dx1 + dx2, dy1 + dy2, x, y)
  {
    AtFill(w2, h2, c, x, y);
    if InBlock(x, y, dx2, dy2, w1, h1) {
      AtFill(w1, h1, c, x - dx2, y - dy2);
    }
  }

  /** `cur` is the `w` × `h` image of colour `c` with `p` (`pw` × `ph`)
      pasted at (dx, dy): the state of `extrude` between its steps. */
  ghost predicate Extruded(cur: seq<Argb32>, p: seq<Argb32>, pw: nat, ph: nat, c: Argb32, w: nat, h: nat, dx: nat, dy: nat)
  {
    pw + dx <= w && ph + dy <= h && cur == Pasted(p, pw, ph, Fill(w * h, c), w, h, dx, dy)
  }

  /** One more step of `extrude`, pasting the current image into a larger
      one of colour `c` at (ox, oy), moves `p` by (ox, oy). */
  lemma ExtrudedStep(cur: seq<Argb32>, p: seq<Argb32>, pw: nat, ph: nat, c: Argb32, w: nat, h: nat, dx: nat, dy: nat,
                     next: seq<Argb32>, w2: nat, h2: nat, ox: nat, oy: nat)
    requires Extruded(cur, p, pw, ph, c, w, h, dx, dy) && w + ox <= w2 && h + oy <= h2
    requires next == Pasted(cur, w, h, Fill(w2 * h2, c), w2, h2, ox, oy)
    ensures Extruded(next, p, pw, ph, c, w2, h2, dx + ox, dy + oy)
  {
    PastedTwice(p, pw, ph, c, w, h, dx, dy, w2, h2, ox, oy);
  }

  /** Appending `n` rows of colour `c` (`extrude`'s top phase). */
  lemma RowsAppended(p: seq<Argb32>, w: nat, h: nat, n: nat, c: Argb32)
    requires |p| == w * h
    ensures p + Fill(w * n, c) == Pasted(p, w, h, Fill(w * (h + n), c), w, h + n, 0, 0)
  {
    var q := p + Fill(w * n, c);
    assert |q| == w * (h + n);
    forall x: nat, y: nat | x < w && y < h + n
      ensures At(q, w, x, y) == At(Pasted(p, w, h, Fill(w * (h + n), c), w, h + n, 0, 0), w, x, y)
    {
      AtPasted(p, w, h, Fill(w * (h + n), c), w, h + n, 0, 0, x, y);
      AtFill(w, h + n, c, x, y);
      CellBound(w, h + n, x, y);
      if y < h {
        CellBound(w, h, x, y);
      } else {
        MulMono(w, h, y);
      }
    }
    SameImage(q, Pasted(p, w, h, Fill(w * (h + n), c), w, h + n, 0, 0), w, h + n);
  }

  /** Prepending `n` rows of colour `c` (`extrude`'s bottom phase). */
  lemma RowsPrepended(p: seq<Argb32>, w: nat, h: nat, n: nat, c: Argb32)
    requires |p| == w * h
    ensures Fill(w * n, c) + p == Pasted(p, w, h, Fill(w * (h + n), c), w, h + n, 0, n)
  {
    var q := Fill(w * n, c) + p;
    assert |q| == w * (h + n);
    forall x: nat, y: nat | x < w && y < h + n
      ensures At(q, w, x, y) == At(Pasted(p, w, h, Fill(w * (h + n), c), w, h + n, 0, n), w, x, y)
    {
      AtPasted(p, w, h, Fill(w * (h + n), c), w, h + n, 0, n, x, y);
      AtFill(w, h + n, c, x, y);
      CellBound(w, h + n, x, y);
      if y < n {
        CellBound(w, n, x, y);
      } else {
        MulSplit(w, y, n);
        CellBound(w, h, x, y - n);
      }
    }
    SameImage(q, Pasted(p, w, h, Fill(w * (h + n), c), w, h + n, 0, n), w, h + n);
  }

  /** Pasting a whole image into nothing-but-itself is the image. */
  lemma PastedWhole(p: seq<Argb32>, w: nat, h: nat, c: Argb32)
    requires |p| == w * h
    ensures Pasted(p, w, h, Fill(w * h, c), w, h, 0, 0) == p
  {
    forall x: nat, y: nat | x < w && y < h
      ensures At(Pasted(p, w, h, Fill(w * h, c), w, h, 0, 0), w, x, y) == At(p, w, x, y)
    {
      AtPasted(p, w, h, Fill(w * h, c), w, h, 0, 0, x, y);
    }
    SameImage(Pasted(p, w, h, Fill(w * h, c), w, h, 0, 0), p, w, h);
  }

  /** The window of a paste at the pasted image's place is that image:
      `crop` undoes `extrude`. */
  lemma WindowOfPasted(p: seq<Argb32>, w: nat, h: nat, base: seq<Argb32>, nw: nat, nh: nat, dx: nat, dy: nat)
    requires |p| == w * h && w + dx <= nw && h + dy <= nh
    ensures Window(Pasted(p, w, h, base, nw, nh, dx, dy), nw, w, h, dx, dy) == p
  {
    var q := Pasted(p, w, h, base, nw, nh, dx, dy);
    forall x: nat, y: nat | x < w && y < h
      ensures At(Window(q, nw, w, h, dx, dy), w, x, y) == At(p, w, x, y)
    {
      AtWindow(q, nw, w, h, dx, dy, x, y);
      AtPasted(p, w, h, base, nw, nh, dx, dy, x + dx, y + dy);
    }
    SameImage(Window(q, nw, w, h, dx, dy), p, w, h);
  }

  // ---------------------------------------------------------------------
  // Moving a region (`translate_region`)

  /** Cell (x, y) lies in the region from `bl` to `tr` (exclusive). */
  predicate InRegion(bl: IVec2, tr: IVec2, x: int, y: int)
  {
    bl.x <= x < tr.x && bl.y <= y < tr.y
  }

  /** Pixel (x, y) after the region has moved by (dx, dy): a moved pixel
      where one landed, white where the region was and nothing landed, the
      old pixel elsewhere. */
  function MovedCell(p: seq<Argb32>, w: nat, bl: IVec2, tr: IVec2, dx: int, dy: int, x: nat, y: nat): Argb32
  {
    if InRegion(bl, tr, x - dx, y - dy) then At(p, w, x - dx, y - dy)
    else if InRegion(bl, tr, x, y) then WHITE
    else At(p, w, x, y)
  }

  /** The `w` × `h` image `p` with the region moved by (dx, dy). */
  function Moved(p: seq<Argb32>, w: nat, h: nat, bl: IVec2, tr: IVec2, dx: int, dy: int): (r: seq<Argb32>)
    ensures |r| == w * h
  {
    Image(w, h, (x: nat, y: nat) => MovedCell(p, w, bl, tr, dx, dy, x, y))
  }

  lemma AtMoved(p: seq<Argb32>, w: nat, h: nat, bl: IVec2, tr: IVec2, dx: int, dy: int, x: nat, y: nat)
    requires x < w && y < h
    ensures At(Moved(p, w, h, bl, tr, dx, dy), w, x, y) == MovedCell(p, w, bl, tr, dx, dy, x, y)
  {
    AtImage(w, h, (x: nat, y: nat) => MovedCell(p, w, bl, tr, dx, dy, x, y), x, y);
  }

  /** Moving the region by (dx, dy) and then moving the region where it
      landed by (-dx, -dy) restores every cell of the original region. */
  lemma MovedBack(p: seq<Argb32>, w: nat, h: nat, bl: IVec2, tr: IVec2, dx: int, dy: int, x: nat, y: nat)
    requires |p| == w * h && InRegion(bl, tr, x, y) && tr.x <= w && tr.y <= h
    requires 0 <= bl.x + dx && tr.x + dx <= w && 0 <= bl.y + dy && tr.y + dy <= h
    requires tr.x + dx < 0x1_0000_0000 && tr.y + dy < 0x1_0000_0000
    ensures At(Moved(Moved(p, w, h, bl, tr, dx, dy), w, h, IVec2(bl.x + dx, bl.y + dy), IVec2(tr.x + dx, tr.y + dy), -dx, -dy), w, x, y)
            == At(p, w, x, y)
  {
    var q := Moved(p, w, h, bl, tr, dx, dy);
    AtMoved(q, w, h, IVec2(bl.x + dx, bl.y + dy), IVec2(tr.x + dx, tr.y + dy), -dx, -dy, x, y);
    AtMoved(p, w, h, bl, tr, dx, dy, x + dx, y + dy);
  }

  /** Pixel (x, y) once the walk standing at `pos` has moved the region
      cells it visited. */
  function MovingCell(p: seq<Argb32>, w: nat, bl: IVec2, tr: IVec2, dx: int, dy: int, pos: Cursor, forward: bool, x: nat, y: nat): Argb32
  {
    if InRegion(bl, tr, x - dx, y - dy) && Done(x - dx, y - dy, pos, forward) then At(p, w, x - dx, y - dy)
    else if InRegion(bl, tr, x, y) && Done(x, y, pos, forward) then WHITE
    else At(p, w, x, y)
  }

  /** The loop state of a move. */
  ghost predicate Moving(cur: seq<Argb32>, p: seq<Argb32>, w: nat, h: nat, bl: IVec2, tr: IVec2, dx: int, dy: int, pos: Cursor, forward: bool)
  {
    |cur| == w * h &&
    forall x: nat, y: nat :: x < w && y < h ==> At(cur, w, x, y) == MovingCell(p, w, bl, tr, dx, dy, pos, forward, x, y)
  }

  /** Before the walk has visited any region cell, nothing has moved. */
  lemma MovingStart(p: seq<Argb32>, w: nat, h: nat, bl: IVec2, tr: IVec2, dx: int, dy: int, pos: Cursor, forward: bool)
    requires |p| == w * h
    requires forall x, y :: InRegion(bl, tr, x, y) ==> !Done(x, y, pos, forward)
    ensures Moving(p, p, w, h, bl, tr, dx, dy, pos, forward)
  {
  }

  /** Moving the cell the walk stands on: its pixel is copied to the
      destination and it turns white.  The cell's own source (the cell that
      moves onto it) must not have been visited yet, which the direction of
      the walk guarantees. */
  lemma MovingStep(cur: seq<Argb32>, p: seq<Argb32>, w: nat, h: nat, bl: IVec2, tr: IVec2, dx: int, dy: int, pos: Cursor, next: Cursor, forward: bool)
    requires Moving(cur, p, w, h, bl, tr, dx, dy, pos, forward)
    requires InRegion(bl, tr, pos.x, pos.y) && tr.x <= w && tr.y <= h
    requires 0 <= pos.x + dx < w && 0 <= pos.y + dy < h && (dx != 0 || dy != 0)
    requires forall x, y :: InRegion(bl, tr, x, y) ==>
               (Done(x, y, next, forward) <==> Done(x, y, pos, forward) || (x == pos.x && y == pos.y))
    requires !Done(pos.x - dx, pos.y - dy, next, forward)
    ensures 0 <= w * pos.y && w * pos.y + pos.x < |cur| && 0 <= w * (pos.y + dy) && w * (pos.y + dy) + (pos.x + dx) < |cur|
    ensures Moving(cur[w * (pos.y + dy) + (pos.x + dx) := cur[w * pos.y + pos.x]][w * pos.y + pos.x := WHITE],
                   p, w, h, bl, tr, dx, dy, next, forward)
  {
    var sx: nat, sy: nat := pos.x, pos.y;
    var tx: nat, ty: nat := pos.x + dx, pos.y + dy;
    CellBound(w, h, sx, sy);
    CellBound(w, h, tx, ty);
    MovingWrites(cur, p, w, h, bl, tr, dx, dy, pos, next, forward, sx, sy, tx, ty);
  }

  lemma MovingWrites(cur: seq<Argb32>, p: seq<Argb32>, w: nat, h: nat, bl: IVec2, tr: IVec2, dx: int, dy: int, pos: Cursor, next: Cursor, forward: bool,
                     sx: nat, sy: nat, tx: nat, ty: nat)
    requires Moving(cur, p, w, h, bl, tr, dx, dy, pos, forward)
    requires InRegion(bl, tr, pos.x, pos.y) && tr.x <= w && tr.y <= h
    requires 0 <= pos.x + dx < w && 0 <= pos.y + dy < h && (dx != 0 || dy != 0)
    requires forall x, y :: InRegion(bl, tr, x, y) ==>
               (Done(x, y, next, forward) <==> Done(x, y, pos, forward) || (x == pos.x && y == pos.y))
    requires !Done(pos.x - dx, pos.y - dy, next, forward)
    requires sx == pos.x && sy == pos.y && tx == pos.x + dx && ty == pos.y + dy
    requires 0 <= w * sy && w * sy + sx < |cur| && 0 <= w * ty && w * ty + tx < |cur|
    ensures Moving(cur[w * ty + tx := cur[w * sy + sx]][w * sy + sx := WHITE], p, w, h, bl, tr, dx, dy, next, forward)
  {
    var v := cur[w * sy + sx];
    assert v == At(cur, w, sx, sy);
    var cur1 := cur[w * ty + tx := v];
    var cur2 := cur1[w * sy + sx := WHITE];
    forall x: nat, y: nat | x < w && y < h
      ensures At(cur2, w, x, y) == MovingCell(p, w, bl, tr, dx, dy, next, forward, x, y)
    {
      AtUpdate(cur, w, h, tx, ty, v, x, y);
      AtUpdate(cur1, w, h, sx, sy, WHITE, x, y);
      MovingStepCell(cur, p, w, h, bl, tr, dx, dy, pos, next, forward, x, y);
    }
  }

  lemma MovingStepCell(cur: seq<Argb32>, p: seq<Argb32>, w: nat, h: nat, bl: IVec2, tr: IVec2, dx: int, dy: int, pos: Cursor, next: Cursor, forward: bool, x: nat, y: nat)
    requires Moving(cur, p, w, h, bl, tr, dx, dy, pos, forward)
    requires InRegion(bl, tr, pos.x, pos.y) && tr.x <= w && tr.y <= h
    requires 0 <= pos.x + dx < w && 0 <= pos.y + dy < h && (dx != 0 || dy != 0)
    requires forall x, y :: InRegion(bl, tr, x, y) ==>
               (Done(x, y, next, forward) <==> Done(x, y, pos, forward) || (x == pos.x && y == pos.y))
    requires !Done(pos.x - dx, pos.y - dy, next, forward)
    requires x < w && y < h
    ensures MovingCell(p, w, bl, tr, dx, dy, next, forward, x, y)
         == if x == pos.x && y == pos.y then WHITE
            else if x == pos.x + dx && y == pos.y + dy then At(cur, w, pos.x, pos.y)
            else At(cur, w, x, y)
  {
    assert At(cur, w, pos.x, pos.y) == MovingCell(p, w, bl, tr, dx, dy, pos, forward, pos.x, pos.y);
  }

  /** Moving the walk to a position that has visited the same region cells
      (wrapping to the next row) keeps the loop state. */
  lemma MovingWrap(cur: seq<Argb32>, p: seq<Argb32>, w: nat, h: nat, bl: IVec2, tr: IVec2, dx: int, dy: int, pos: Cursor, next: Cursor, forward: bool)
    requires Moving(cur, p, w, h, bl, tr, dx, dy, pos, forward)
    requires forall x, y :: InRegion(bl, tr, x, y) ==> (Done(x, y, next, forward) <==> Done(x, y, pos, forward))
    ensures Moving(cur, p, w, h, bl, tr, dx, dy, next, forward)
  {
  }

  /** Once the walk has visited every region cell, the move is complete. */
  lemma MovingEnd(cur: seq<Argb32>, p: seq<Argb32>, w: nat, h: nat, bl: IVec2, tr: IVec2, dx: int, dy: int, pos: Cursor, forward: bool)
    requires Moving(cur, p, w, h, bl, tr, dx, dy, pos, forward)
    requires forall x, y :: InRegion(bl, tr, x, y) ==> Done(x, y, pos, forward)
    ensures cur == Moved(p, w, h, bl, tr, dx, dy)
  {
    forall x: nat, y: nat | x < w && y < h
      ensures At(cur, w, x, y) == At(Moved(p, w, h, bl, tr, dx, dy), w, x, y)
    {
      AtMoved(p, w, h, bl, tr, dx, dy, x, y);
    }
    SameImage(cur, Moved(p, w, h, bl, tr, dx, dy), w, h);
  }

  /** A row-by-row walk over a `w`-wide block, in offsets from its first
      cell: `i` cells visited, the walk standing `u` cells into row `v`
      (`u == w` until it wraps lazily). */
  predicate WalkAt(w: nat, u: int, v: int, i: nat)
  {
    0 <= u <= w && 0 <= v && i == w * v + u && (i == 0 ==> u == 0 && v == 0) && (i > 0 ==> u > 0)
  }

  /** Visiting one more cell of a `w` × `h` block, after wrapping when the
      row is done. */
  lemma WalkNext(w: nat, h: nat, u: int, v: int, i: nat)
    requires WalkAt(w, u, v, i) && i < w * h
    ensures u == w ==> v + 1 < h && WalkAt(w, 1, v + 1, i + 1)
    ensures u < w ==> v < h && WalkAt(w, u + 1, v, i + 1)
  {
    if u == w {
      MulStep(w, v + 1);
      CursorRow(w, h, i, 0, v + 1);
    } else {
      CursorRow(w, h, i, u, v);
    }
  }

  /** A walk that has visited all cells of a non-empty `w` × `h` block stands
      at the end of its last row. */
  lemma WalkEnd(w: nat, h: nat, u: int, v: int, i: nat)
    requires WalkAt(w, u, v, i) && i == w * h
    ensures w > 0 && h > 0 ==> u == w && v + 1 == h
  {
    if w > 0 && h > 0 {
      MulMono(w, 1, h);
      CursorEnd(w, h, u, v);
    }
  }

  /** A step of a backward move (right or up) from the region cell `pos`,
      which the walk then leaves for the cell to its left. */
  lemma MovingBackStep(cur: seq<Argb32>, p: seq<Argb32>, w: nat, h: nat, bl: IVec2, tr: IVec2, dx: nat, dy: nat, pos: Cursor, s: int, t: int)
    requires Moving(cur, p, w, h, bl, tr, dx, dy, pos, false)
    requires InRegion(bl, tr, pos.x, pos.y) && tr.x + dx <= w && tr.y + dy <= h && dx + dy > 0
    requires s == w * pos.y + pos.x && t == w * (pos.y + dy) + (pos.x + dx)
    ensures 0 <= s < |cur| && 0 <= t < |cur|
    ensures Moving(cur[t := cur[s]][s := WHITE], p, w, h, bl, tr, dx, dy, Cursor(pos.x - 1, pos.y), false)
  {
    MovingStep(cur, p, w, h, bl, tr, dx, dy, pos, Cursor(pos.x - 1, pos.y), false);
  }

  /** A backward walk past the left edge of the region continues at the
      right end of the row below. */
  lemma MovingBackWrap(cur: seq<Argb32>, p: seq<Argb32>, w: nat, h: nat, bl: IVec2, tr: IVec2, dx: int, dy: int, pos: Cursor)
    requires Moving(cur, p, w, h, bl, tr, dx, dy, pos, false) && pos.x == bl.x - 1
    ensures Moving(cur, p, w, h, bl, tr, dx, dy, Cursor(tr.x - 1, pos.y - 1), false)
  {
    MovingWrap(cur, p, w, h, bl, tr, dx, dy, pos, Cursor(tr.x - 1, pos.y - 1), false);
  }

  /** A step of a forward move (left or down) from the region cell `pos`,
      which the walk then leaves for the cell to its right. */
  lemma MovingForwardStep(cur: seq<Argb32>, p: seq<Argb32>, w: nat, h: nat, bl: IVec2, tr: IVec2, dx: nat, dy: nat, pos: Cursor, s: int, t: int)
    requires Moving(cur, p, w, h, bl, tr, -(dx as int), -(dy as int), pos, true)
    requires InRegion(bl, tr, pos.x, pos.y) && tr.x <= w && tr.y <= h && dx <= bl.x && dy <= bl.y && dx + dy > 0
    requires s == w * pos.y + pos.x && t == w * (pos.y - dy) + (pos.x - dx)
    ensures 0 <= s < |cur| && 0 <= t < |cur|
    ensures Moving(cur[t := cur[s]][s := WHITE], p, w, h, bl, tr, -(dx as int), -(dy as int), Cursor(pos.x + 1, pos.y), true)
  {
    MovingStep(cur, p, w, h, bl, tr, -(dx as int), -(dy as int), pos, Cursor(pos.x + 1, pos.y), true);
  }

  /** A forward walk past the right edge of the region continues at the
      left end of the row above. */
  lemma MovingForwardWrap(cur: seq<Argb32>, p: seq<Argb32>, w: nat, h: nat, bl: IVec2, tr: IVec2, dx: int, dy: int, pos: Cursor)
    requires Moving(cur, p, w, h, bl, tr, dx, dy, pos, true) && pos.x == tr.x
    ensures Moving(cur, p, w, h, bl, tr, dx, dy, Cursor(bl.x, pos.y + 1), true)
  {
    MovingWrap(cur, p, w, h, bl, tr, dx, dy, pos, Cursor(bl.x, pos.y + 1), true);
  }

  // ---------------------------------------------------------------------
  // Exchanging two blocks (`swap_regions`)

  /** The two `sw` × `sh` blocks at `o1` and `o2` share no cell. */
  predicate Disjoint(o1: IVec2, o2: IVec2, sw: nat, sh: nat)
  {
    sw == 0 || sh == 0 || o1.x + sw <= o2.x || o2.x + sw <= o1.x || o1.y + sh <= o2.y || o2.y + sh <= o1.y
  }

  /** No cell lies in two disjoint blocks. */
  lemma DisjointCells(o1: IVec2, o2: IVec2, sw: nat, sh: nat, x: int, y: int)
    requires Disjoint(o1, o2, sw, sh)
    ensures !(InBlock(x, y, o1.x, o1.y, sw, sh) && InBlock(x, y, o2.x, o2.y, sw, sh))
  {
  }

  /** Pixel (x, y) after the blocks at `o1` and `o2` traded places. */
  function SwappedCell(p: seq<Argb32>, w: nat, sw: nat, sh: nat, o1: IVec2, o2: IVec2, x: nat, y: nat): Argb32
  {
    if InBlock(x, y, o1.x, o1.y, sw, sh) then At(p, w, x - o1.x + o2.x, y - o1.y + o2.y)
    else if InBlock(x, y, o2.x, o2.y, sw, sh) then At(p, w, x - o2.x + o1.x, y - o2.y + o1.y)
    else At(p, w, x, y)
  }

  /** The `w` × `h` image `p` with its blocks at `o1` and `o2` exchanged. */
  function Swapped(p: seq<Argb32>, w: nat, h: nat, sw: nat, sh: nat, o1: IVec2, o2: IVec2): (r: seq<Argb32>)
    ensures |r| == w * h
  {
    Image(w, h, (x: nat, y: nat) => SwappedCell(p, w, sw, sh, o1, o2, x, y))
  }

  lemma AtSwapped(p: seq<Argb32>, w: nat, h: nat, sw: nat, sh: nat, o1: IVec2, o2: IVec2, x: nat, y: nat)
    requires x < w && y < h
    ensures At(Swapped(p, w, h, sw, sh, o1, o2), w, x, y) == SwappedCell(p, w, sw, sh, o1, o2, x, y)
  {
    AtImage(w, h, (x: nat, y: nat) => SwappedCell(p, w, sw, sh, o1, o2, x, y), x, y);
  }

  /** Exchanging disjoint blocks does not depend on which is named first. */
  lemma SwappedSymmetric(p: seq<Argb32>, w: nat, h: nat, sw: nat, sh: nat, o1: IVec2, o2: IVec2)
    requires Disjoint(o1, o2, sw, sh)
    ensures Swapped(p, w, h, sw, sh, o1, o2) == Swapped(p, w, h, sw, sh, o2, o1)
  {
    forall x: nat, y: nat | x < w && y < h
      ensures At(Swapped(p, w, h, sw, sh, o1, o2), w, x, y) == At(Swapped(p, w, h, sw, sh, o2, o1), w, x, y)
    {
      AtSwapped(p, w, h, sw, sh, o1, o2, x, y);
      AtSwapped(p, w, h, sw, sh, o2, o1, x, y);
      DisjointCells(o1, o2, sw, sh, x, y);
    }
    SameImage(Swapped(p, w, h, sw, sh, o1, o2), Swapped(p, w, h, sw, sh, o2, o1), w, h);
  }

  /** Exchanging the same disjoint blocks twice restores the image. */
  lemma SwappedTwice(p: seq<Argb32>, w: nat, h: nat, sw: nat, sh: nat, o1: IVec2, o2: IVec2)
    requires |p| == w * h && Disjoint(o1, o2, sw, sh)
    requires o1.x + sw <= w && o1.y + sh <= h && o2.x + sw <= w && o2.y + sh <= h
    ensures Swapped(Swapped(p, w, h, sw, sh, o1, o2), w, h, sw, sh, o1, o2) == p
  {
    var q := Swapped(p, w, h, sw, sh, o1, o2);
    forall x: nat, y: nat | x < w && y < h
      ensures At(Swapped(q, w, h, sw, sh, o1, o2), w, x, y) == At(p, w, x, y)
    {
      AtSwapped(q, w, h, sw, sh, o1, o2, x, y);
      DisjointCells(o1, o2, sw, sh, x, y);
      if InBlock(x, y, o1.x, o1.y, sw, sh) {
        var mx: nat, my: nat := x - o1.x + o2.x, y - o1.y + o2.y;
        AtSwapped(p, w, h, sw, sh, o1, o2, mx, my);
        DisjointCells(o1, o2, sw, sh, mx, my);
      } else if InBlock(x, y, o2.x, o2.y, sw, sh) {
        var mx: nat, my: nat := x - o2.x + o1.x, y - o2.y + o1.y;
        AtSwapped(p, w, h, sw, sh, o1, o2, mx, my);
        DisjointCells(o1, o2, sw, sh, mx, my);
      } else {
        AtSwapped(p, w, h, sw, sh, o1, o2, x, y);
      }
    }
    SameImage(Swapped(q, w, h, sw, sh, o1, o2), p, w, h);
  }

  /** Pixel (x, y) once a forward walk over the first block standing at
      `pos` (block coordinates) has exchanged the cells it visited. */
  function SwappingCell(p: seq<Argb32>, w: nat, sw: nat, sh: nat, o1: IVec2, o2: IVec2, pos: IVec2, x: nat, y: nat): Argb32
  {
    if InBlock(x, y, o1.x, o1.y, sw, sh) && Done(x - o1.x, y - o1.y, Cursor(pos.x, pos.y), true) then At(p, w, x - o1.x + o2.x, y - o1.y + o2.y)
    else if InBlock(x, y, o2.x, o2.y, sw, sh) && Done(x - o2.x, y - o2.y, Cursor(pos.x, pos.y), true) then At(p, w, x - o2.x + o1.x, y - o2.y + o1.y)
    else At(p, w, x, y)
  }

  /** The loop state of an exchange. */
  ghost predicate Swapping(cur: seq<Argb32>, p: seq<Argb32>, w: nat, h: nat, sw: nat, sh: nat, o1: IVec2, o2: IVec2, pos: IVec2)
  {
    |cur| == w * h &&
    forall x: nat, y: nat :: x < w && y < h ==> At(cur, w, x, y) == SwappingCell(p, w, sw, sh, o1, o2, pos, x, y)
  }

  lemma SwappingStart(p: seq<Argb32>, w: nat, h: nat, sw: nat, sh: nat, o1: IVec2, o2: IVec2)
    requires |p| == w * h
    ensures Swapping(p, p, w, h, sw, sh, o1, o2, IVec2(0, 0))
  {
  }

  /** Exchanging the pair of cells the walk stands on and stepping right. */
  lemma SwappingStep(cur: seq<Argb32>, p: seq<Argb32>, w: nat, h: nat, sw: nat, sh: nat, o1: IVec2, o2: IVec2, pos: IVec2)
    requires Swapping(cur, p, w, h, sw, sh, o1, o2, pos) && Disjoint(o1, o2, sw, sh)
    requires o1.x + sw <= w && o1.y + sh <= h && o2.x + sw <= w && o2.y + sh <= h
    requires pos.x < sw && pos.y < sh && pos.x + 1 < 0x1_0000_0000
    ensures 0 <= w * (o1.y + pos.y) && w * (o1.y + pos.y) + (o1.x + pos.x) < |cur|
    ensures 0 <= w * (o2.y + pos.y) && w * (o2.y + pos.y) + (o2.x + pos.x) < |cur|
    ensures var i1, i2 := w * (o1.y + pos.y) + (o1.x + pos.x), w * (o2.y + pos.y) + (o2.x + pos.x);
            Swapping(cur[i2 := cur[i1]][i1 := cur[i2]], p, w, h, sw, sh, o1, o2, IVec2(pos.x + 1, pos.y))
  {
    var ax: nat, ay: nat := o1.x + pos.x, o1.y + pos.y;
    var bx: nat, qy: nat := o2.x + pos.x, o2.y + pos.y;
    CellBound(w, h, ax, ay);
    CellBound(w, h, bx, qy);
    var i1, i2 := w * ay + ax, w * qy + bx;
    var a, b := cur[i1], cur[i2];
    assert a == At(cur, w, ax, ay) && b == At(cur, w, bx, qy);
    var cur1 := cur[i2 := a];
    var cur2 := cur1[i1 := b];
    forall x: nat, y: nat | x < w && y < h
      ensures At(cur2, w, x, y) == SwappingCell(p, w, sw, sh, o1, o2, IVec2(pos.x + 1, pos.y), x, y)
    {
      AtUpdate(cur, w, h, bx, qy, a, x, y);
      AtUpdate(cur1, w, h, ax, ay, b, x, y);
      SwappingStepCell(cur, p, w, h, sw, sh, o1, o2, pos, x, y);
    }
  }

  lemma SwappingStepCell(cur: seq<Argb32>, p: seq<Argb32>, w: nat, h: nat, sw: nat, sh: nat, o1: IVec2, o2: IVec2, pos: IVec2, x: nat, y: nat)
    requires Swapping(cur, p, w, h, sw, sh, o1, o2, pos) && Disjoint(o1, o2, sw, sh)
    requires o1.x + sw <= w && o1.y + sh <= h && o2.x + sw <= w && o2.y + sh <= h
    requires pos.x < sw && pos.y < sh && pos.x + 1 < 0x1_0000_0000 && x < w && y < h
    ensures SwappingCell(p, w, sw, sh, o1, o2, IVec2(pos.x + 1, pos.y), x, y)
         == if x == o1.x + pos.x && y == o1.y + pos.y then At(cur, w, o2.x + pos.x, o2.y + pos.y)
            else if x == o2.x + pos.x && y == o2.y + pos.y then At(cur, w, o1.x + pos.x, o1.y + pos.y)
            else At(cur, w, x, y)
  {
    var ax: nat, ay: nat := o1.x + pos.x, o1.y + pos.y;
    var bx: nat, qy: nat := o2.x + pos.x, o2.y + pos.y;
    DisjointCells(o1, o2, sw, sh, ax, ay);
    DisjointCells(o1, o2, sw, sh, bx, qy);
    DisjointCells(o1, o2, sw, sh, x, y);
    assert At(cur, w, ax, ay) == SwappingCell(p, w, sw, sh, o1, o2, pos, ax, ay);
    assert At(cur, w, bx, qy) == SwappingCell(p, w, sw, sh, o1, o2, pos, bx, qy);
  }

  /** Wrapping the walk to the start of the next row changes nothing. */
  lemma SwappingWrap(cur: seq<Argb32>, p: seq<Argb32>, w: nat, h: nat, sw: nat, sh: nat, o1: IVec2, o2: IVec2, pos: IVec2)
    requires Swapping(cur, p, w, h, sw, sh, o1, o2, pos)
    requires pos.x == sw && pos.y + 1 < 0x1_0000_0000
    ensures Swapping(cur, p, w, h, sw, sh, o1, o2, IVec2(0, pos.y + 1))
  {
  }

  /** Once the walk has visited the whole block, the exchange is complete. */
  lemma SwappingEnd(cur: seq<Argb32>, p: seq<Argb32>, w: nat, h: nat, sw: nat, sh: nat, o1: IVec2, o2: IVec2, pos: IVec2)
    requires Swapping(cur, p, w, h, sw, sh, o1, o2, pos)
    requires forall x, y :: 0 <= x < sw && 0 <= y < sh ==> Done(x, y, Cursor(pos.x, pos.y), true)
    ensures cur == Swapped(p, w, h, sw, sh, o1, o2)
  {
    forall x: nat, y: nat | x < w && y < h
      ensures At(cur, w, x, y) == At(Swapped(p, w, h, sw, sh, o1, o2), w, x, y)
    {
      AtSwapped(p, w, h, sw, sh, o1, o2, x, y);
    }
    SameImage(cur, Swapped(p, w, h, sw, sh, o1, o2), w, h);
  }
}
