/** `texture_atlas<id_type>`: images registered under ids, grouped by
    their pixel count, and laid out left to right in rows on one canvas.

    The `std::map` from pixel count to the images of that count is a
    sequence of shelves kept in ascending order of their key; an image's
    place in the atlas is recorded as its integer corners. */
module TextureAtlas {
  import opened Util
  import opened Pixels
  import opened Canvas
  import opened Bitmap

  /** `texture_atlas_element`: where an image went, as its bottom-left and
      (exclusive) top-right corners in atlas pixels. */
  datatype Element = Element(bottomLeft: IVec2, topRight: IVec2)

  /** The element of an id that has not been laid out yet. */
  const ZERO_ELEMENT := Element(IVec2(0, 0), IVec2(0, 0))

  /** The default background colour: white, fully transparent. */
  const CLEAR_WHITE := Argb32(0xFF, 0xFF, 0xFF, 0x00)

  datatype Entry<Id> = Entry(id: Id, picture: Picture)

  /** The images of one pixel count, in the order they were pushed. */
  datatype Shelf<Id> = Shelf(size: u32, entries: seq<Entry<Id>>)

  // ---------------------------------------------------------------------
  // The map from pixel count to images

  /** Keys strictly ascending: each key once, in the map's iteration order. */
  predicate Ascending<Id>(data: seq<Shelf<Id>>)
  {
    forall i, j :: 0 <= i < j < |data| ==> data[i].size < data[j].size
  }

  /** Every stored image is well formed, fits `uint32_t` and is filed
      under its own pixel count. */
  predicate Filed<Id>(data: seq<Shelf<Id>>)
  {
    forall i, k :: 0 <= i < |data| && 0 <= k < |data[i].entries| ==> FiledUnder(data[i].entries[k], data[i].size)
  }

  predicate FiledUnder<Id>(e: Entry<Id>, size: u32)
  {
    e.picture.Wf() && |e.picture.pixels| == size
  }

  /** `m_data[size]`: the images of that pixel count, none when absent. */
  function Lookup<Id>(data: seq<Shelf<Id>>, size: u32): seq<Entry<Id>>
  {
    if |data| == 0 then []
    else if data[0].size == size then data[0].entries
    else Lookup(data[1..], size)
  }

  /** Pixels held by all stored images. */
  function StoredPixels<Id>(data: seq<Shelf<Id>>): nat
  {
    if |data| == 0 then 0 else ShelfPixels(data[0].entries) + StoredPixels(data[1..])
  }

  function ShelfPixels<Id>(es: seq<Entry<Id>>): nat
  {
    if |es| == 0 then 0 else ShelfPixels(es[..|es| - 1]) + |es[|es| - 1].picture.pixels|
  }

  /** The ids of all stored images, each as often as it is stored. */
  function StoredIds<Id>(data: seq<Shelf<Id>>): multiset<Id>
  {
    if |data| == 0 then multiset{} else ShelfIds(data[0].entries) + StoredIds(data[1..])
  }

  function ShelfIds<Id>(es: seq<Entry<Id>>): multiset<Id>
  {
    if |es| == 0 then multiset{} else ShelfIds(es[..|es| - 1]) + multiset{es[|es| - 1].id}
  }

  /** The id of every image on a shelf is among the shelf's ids. */
  lemma {:induction false} ShelfIdsHas<Id>(es: seq<Entry<Id>>, i: nat)
    requires i < |es|
    ensures es[i].id in ShelfIds(es)
    decreases |es|
  {
    if i < |es| - 1 {
      ShelfIdsHas(es[..|es| - 1], i);
    }
  }

  /** The id of every stored image is among the stored ids. */
  lemma {:induction false} StoredIdsHas<Id>(data: seq<Shelf<Id>>, s: nat, i: nat)
    requires s < |data| && i < |data[s].entries|
    ensures data[s].entries[i].id in StoredIds(data)
    decreases s
  {
    if s == 0 {
      ShelfIdsHas(data[0].entries, i);
    } else {
      assert data[s] == data[1..][s - 1];
      StoredIdsHas(data[1..], s - 1, i);
    }
  }

  /** When the registered ids are the stored ones, every image of a shelf
      has a registered id. */
  lemma ShelfRegistered<Id>(data: seq<Shelf<Id>>, keys: set<Id>, s: nat)
    requires StoredIds(data) == multiset(keys) && s < |data|
    ensures forall i :: 0 <= i < |data[s].entries| ==> data[s].entries[i].id in keys
  {
    forall i | 0 <= i < |data[s].entries|
      ensures data[s].entries[i].id in keys
    {
      StoredIdsHas(data, s, i);
    }
  }

  /** In an ascending map, a key below the first key is absent. */
  lemma LookupBelow<Id>(data: seq<Shelf<Id>>, size: u32)
    requires Ascending(data) && |data| > 0 && size < data[0].size
    ensures Lookup(data, size) == []
    decreases |data|
  {
    if |data| > 1 {
      LookupBelow(data[1..], size);
    }
  }

  /** `m_data[size].push_back(e)`: appends `e` to the shelf of `size`,
      opening that shelf at its place in key order when there is none. */
  function AddToShelf<Id>(data: seq<Shelf<Id>>, size: u32, e: Entry<Id>): (r: seq<Shelf<Id>>)
    requires Ascending(data)
    ensures Ascending(r)
    ensures |r| > 0 && (r[0].size == size || (|data| > 0 && r[0].size == data[0].size))
    decreases |data|
  {
    if |data| == 0 then [Shelf(size, [e])]
    else if data[0].size == size then [Shelf(size, data[0].entries + [e])] + data[1..]
    else if size < data[0].size then [Shelf(size, [e])] + data
    else [data[0]] + AddToShelf(data[1..], size, e)
  }

  /** Adding an image appends it to the images of its key and leaves
      every other key's images alone. */
  lemma {:induction false} AddToShelfLookup<Id>(data: seq<Shelf<Id>>, size: u32, e: Entry<Id>, k: u32)
    requires Ascending(data)
    ensures k == size ==> Lookup(AddToShelf(data, size, e), k) == Lookup(data, k) + [e]
    ensures k != size ==> Lookup(AddToShelf(data, size, e), k) == Lookup(data, k)
    decreases |data|
  {
    var r := AddToShelf(data, size, e);
    if |data| == 0 {
    } else if data[0].size == size {
      assert r[1..] == data[1..];
    } else if size < data[0].size {
      assert r[1..] == data;
      if k == size {
        LookupBelow(data, size);
      }
    } else {
      AddToShelfLookup(data[1..], size, e, k);
      assert r[1..] == AddToShelf(data[1..], size, e);
    }
  }

  /** Adding an image adds its pixels to the stored count. */
  lemma {:induction false} AddToShelfPixels<Id>(data: seq<Shelf<Id>>, size: u32, e: Entry<Id>)
    requires Ascending(data)
    ensures StoredPixels(AddToShelf(data, size, e)) == StoredPixels(data) + |e.picture.pixels|
    decreases |data|
  {
    var r := AddToShelf(data, size, e);
    if |data| == 0 {
      assert [e][..0] == [];
      assert ShelfPixels([e]) == ShelfPixels([e][..0]) + |e.picture.pixels|;
      assert r[1..] == [];
    } else if data[0].size == size {
      assert (data[0].entries + [e])[..|data[0].entries|] == data[0].entries;
      assert r[1..] == data[1..];
    } else if size < data[0].size {
      assert [e][..0] == [];
      assert r[1..] == data;
    } else {
      AddToShelfPixels(data[1..], size, e);
      assert r[1..] == AddToShelf(data[1..], size, e);
    }
  }

  /** Adding an image adds its id to the stored ids once. */
  lemma {:induction false} AddToShelfIds<Id>(data: seq<Shelf<Id>>, size: u32, e: Entry<Id>)
    requires Ascending(data)
    ensures StoredIds(AddToShelf(data, size, e)) == StoredIds(data) + multiset{e.id}
    decreases |data|
  {
    var r := AddToShelf(data, size, e);
    if |data| == 0 {
      assert [e][..0] == [];
      assert ShelfIds([e]) == ShelfIds([e][..0]) + multiset{e.id};
      assert r[1..] == [];
    } else if data[0].size == size {
      assert (data[0].entries + [e])[..|data[0].entries|] == data[0].entries;
      assert r[1..] == data[1..];
    } else if size < data[0].size {
      assert [e][..0] == [];
      assert r[1..] == data;
    } else {
      AddToShelfIds(data[1..], size, e);
      assert r[1..] == AddToShelf(data[1..], size, e);
    }
  }

  /** Adding an image filed under its own pixel count keeps every image
      filed. */
  lemma {:induction false} AddToShelfFiled<Id>(data: seq<Shelf<Id>>, size: u32, e: Entry<Id>)
    requires Ascending(data) && Filed(data) && FiledUnder(e, size)
    ensures Filed(AddToShelf(data, size, e))
    decreases |data|
  {
    var r := AddToShelf(data, size, e);
    if |data| > 0 && data[0].size != size && size > data[0].size {
      AddToShelfFiled(data[1..], size, e);
      assert r[1..] == AddToShelf(data[1..], size, e);
      forall i, k | 0 <= i < |r| && 0 <= k < |r[i].entries|
        ensures FiledUnder(r[i].entries[k], r[i].size)
      {
        if i > 0 {
          assert r[i] == r[1..][i - 1];
        }
      }
    } else if |data| > 0 && data[0].size == size {
      forall i, k | 0 <= i < |r| && 0 <= k < |r[i].entries|
        ensures FiledUnder(r[i].entries[k], r[i].size)
      {
        if i > 0 {
          assert r[i] == data[i];
        } else if k < |data[0].entries| {
          assert r[0].entries[k] == data[0].entries[k];
        }
      }
    } else if |data| > 0 {
      forall i, k | 0 <= i < |r| && 0 <= k < |r[i].entries|
        ensures FiledUnder(r[i].entries[k], r[i].size)
      {
        if i > 0 {
          assert r[i] == data[i - 1];
        }
      }
    }
  }

  /** The invariant of an atlas: the canvas fits `uint32_t` indexing, the
      map iterates its keys in ascending order, every image is filed under
      its pixel count, the used space is the stored pixel count in
      `uint32_t` arithmetic, never above the capacity, and the registered
      ids are the stored images' ids, each stored once. */
  ghost predicate Stocked<Id>(width: u32, height: u32, usedSpace: u32, data: seq<Shelf<Id>>, keys: set<Id>)
  {
    width * height < 0x1_0000_0000 && Ascending(data) && Filed(data) &&
    usedSpace as int == StoredPixels(data) % 0x1_0000_0000 && usedSpace <= width * height &&
    StoredIds(data) == multiset(keys)
  }

  /** Storing an image filed under its pixel count, under an id not yet
      registered, keeps the invariant: the used space grows by that count
      in `uint32_t` arithmetic and the id joins the registered ones. */
  lemma StoreKeepsStocked<Id>(width: u32, height: u32, usedSpace: u32, data: seq<Shelf<Id>>, keys: set<Id>, size: u32, e: Entry<Id>)
    requires Stocked(width, height, usedSpace, data, keys) && FiledUnder(e, size) && e.id !in keys
    requires U32(usedSpace + size) <= width * height
    ensures Stocked(width, height, U32(usedSpace + size), AddToShelf(data, size, e), keys + {e.id})
  {
    var n := StoredPixels(data);
    AddToShelfPixels(data, size, e);
    AddToShelfFiled(data, size, e);
    AddToShelfIds(data, size, e);
    assert StoredPixels(AddToShelf(data, size, e)) == n + size;
    U32Add(n, size);
    assert U32(n) == usedSpace && U32(size) == size;
    assert multiset(keys + {e.id}) == multiset(keys) + multiset{e.id};
  }

  // ---------------------------------------------------------------------
  // Layout

  /** The running counters of `get`: `total_x_traveled`,
      `total_y_traveled` and `prev_height` (the tallest image so far). */
  datatype Pen = Pen(x: u32, y: u32, prevHeight: u32)

  /** The tallest image so far, once `pic` is counted. */
  function Tallest(pen: Pen, pic: Picture): (r: u32)
    ensures r >= pen.prevHeight && r >= pic.height
  {
    if pic.height > pen.prevHeight then pic.height else pen.prevHeight
  }

  /** Whether `pic` starts a new row: the pen is past the right edge, or
      the image would reach it (in `uint32_t` arithmetic). */
  predicate Wraps(pen: Pen, width: u32, pic: Picture)
  {
    pen.x >= width || U32(pen.x + pic.width) >= width
  }

  /** The bottom-left corner `pic` is placed at. */
  function Corner(pen: Pen, width: u32, pic: Picture): (r: IVec2)
    ensures Wraps(pen, width, pic) ==> r == IVec2(0, U32(pen.y + Tallest(pen, pic)))
    ensures !Wraps(pen, width, pic) ==> r == IVec2(pen.x, pen.y) && U32(pen.x + pic.width) < width
  {
    if Wraps(pen, width, pic) then IVec2(0, U32(pen.y + Tallest(pen, pic))) else IVec2(pen.x, pen.y)
  }

  /** The counters after placing `pic`: right of it, on its row. */
  function NextPen(pen: Pen, width: u32, pic: Picture): Pen
  {
    var c := Corner(pen, width, pic);
    Pen(U32(c.x + pic.width), c.y, Tallest(pen, pic))
  }

  // ---------------------------------------------------------------------
  // Clipped copies

  /** Where the copy of a `qw` × `qh` image with corner (dx, dy) into a
      `w` × `h` atlas stops, as a position in the image: the first pixel
      that falls outside the atlas, or the end of its last row. */
  function Stop(qw: u32, qh: u32, dx: u32, dy: u32, w: u32, h: u32): (r: IVec2)
    ensures r.x <= qw && (qh > 0 ==> r.y < qh)
  {
    if qw == 0 || qh == 0 || dx >= w || dy >= h then IVec2(0, 0)
    else if dx + qw > w then IVec2(w - dx, 0)
    else if dy + qh > h then IVec2(0, h - dy)
    else IVec2(qw, qh - 1)
  }

  /** Position `c` is not later than `s` in row-major order. */
  predicate Before(c: IVec2, s: IVec2)
  {
    c.y < s.y || (c.y == s.y && c.x <= s.x)
  }

  /** Up to the stop, a position of the image falls outside the atlas
      exactly when it is the stop. */
  lemma StopIsFirstOutside(qw: u32, qh: u32, dx: u32, dy: u32, w: u32, h: u32, c: IVec2)
    requires qw > 0 && qh > 0 && c.x < qw && c.y < qh && Before(c, Stop(qw, qh, dx, dy, w, h))
    ensures (dx + c.x >= w || dy + c.y >= h) <==> c == Stop(qw, qh, dx, dy, w, h)
  {
  }

  /** The atlas after copying the image `q` with corner (dx, dy) pixel by
      pixel, stopping at the first pixel outside the atlas. */
  function Placed(q: seq<Argb32>, qw: u32, qh: u32, base: seq<Argb32>, w: u32, h: u32, dx: u32, dy: u32): (r: seq<Argb32>)
    ensures |r| == w * h
  {
    Image(w, h, (x: nat, y: nat) => PastingCell(q, qw, qh, base, w, dx, dy, Stop(qw, qh, dx, dy, w, h), x, y))
  }

  /** The copy's loop state at its stop is the copied atlas. */
  lemma PlacedAtStop(cur: seq<Argb32>, q: seq<Argb32>, qw: u32, qh: u32, base: seq<Argb32>, w: u32, h: u32, dx: u32, dy: u32)
    requires Pasting(cur, q, qw, qh, base, w, h, dx, dy, Stop(qw, qh, dx, dy, w, h))
    ensures cur == Placed(q, qw, qh, base, w, h, dx, dy)
  {
    var s := Stop(qw, qh, dx, dy, w, h);
    forall x: nat, y: nat | x < w && y < h
      ensures At(cur, w, x, y) == At(Placed(q, qw, qh, base, w, h, dx, dy), w, x, y)
    {
      AtImage(w, h, (x: nat, y: nat) => PastingCell(q, qw, qh, base, w, dx, dy, s, x, y), x, y);
    }
    SameImage(cur, Placed(q, qw, qh, base, w, h, dx, dy), w, h);
  }

  /** An image that fits the atlas's width is copied wherever it lies in
      the atlas: the copy is the paste, clipped at the top edge. */
  lemma PlacedWithinWidth(q: seq<Argb32>, qw: u32, qh: u32, base: seq<Argb32>, w: u32, h: u32, dx: u32, dy: u32)
    requires dx + qw <= w
    ensures Placed(q, qw, qh, base, w, h, dx, dy) == Pasted(q, qw, qh, base, w, h, dx, dy)
  {
    var s := Stop(qw, qh, dx, dy, w, h);
    forall x: nat, y: nat | x < w && y < h
      ensures At(Placed(q, qw, qh, base, w, h, dx, dy), w, x, y) == At(Pasted(q, qw, qh, base, w, h, dx, dy), w, x, y)
    {
      AtImage(w, h, (x: nat, y: nat) => PastingCell(q, qw, qh, base, w, dx, dy, s, x, y), x, y);
      AtPasted(q, qw, qh, base, w, h, dx, dy, x, y);
    }
    SameImage(Placed(q, qw, qh, base, w, h, dx, dy), Pasted(q, qw, qh, base, w, h, dx, dy), w, h);
  }

  /** An image wider than the room right of its corner has only the
      visible part of its bottom row copied: the copy stops at the right
      edge and never reaches the rows above. */
  lemma PlacedTooWide(q: seq<Argb32>, qw: u32, qh: u32, base: seq<Argb32>, w: u32, h: u32, dx: u32, dy: u32, x: nat, y: nat)
    requires dx + qw > w && dx < w && dy < h && qh > 0 && x < w && y < h
    ensures At(Placed(q, qw, qh, base, w, h, dx, dy), w, x, y)
         == if y == dy && dx <= x then At(q, qw, x - dx, 0) else At(base, w, x, y)
  {
    var s := Stop(qw, qh, dx, dy, w, h);
    AtImage(w, h, (x: nat, y: nat) => PastingCell(q, qw, qh, base, w, dx, dy, s, x, y), x, y);
  }

  /** Copying the image `q` (`qw` × `qh`, `size` pixels) into the atlas
      `base` at `corner`: the inner loop of `get`, which leaves at the first
      pixel outside the atlas. */
  method CopyPicture(base: seq<Argb32>, w: u32, h: u32, q: seq<Argb32>, qw: u32, qh: u32, size: u32, corner: IVec2)
    returns (r: seq<Argb32>)
    requires |base| == w * h < 0x1_0000_0000 && |q| == qw * qh == size
    ensures r == Placed(q, qw, qh, base, w, h, corner.x, corner.y)
  {
    ghost var stop := Stop(qw, qh, corner.x, corner.y, w, h);
    r := base;
    PastingStart(q, qw, qh, base, w, h, corner.x, corner.y);
    var sub := IVec2(0, 0);
    var pos := corner;
    var p: u32 := 0;
    while p < size
      invariant p <= size && sub.x <= qw && p == qw * sub.y + sub.x && (p == 0 ==> sub == IVec2(0, 0)) && (p > 0 ==> sub.x > 0)
      invariant pos.x == corner.x + sub.x && pos.y == corner.y + sub.y && (p > 0 ==> pos.x <= w && pos.y < h)
      invariant Before(sub, stop)
      invariant Pasting(r, q, qw, qh, base, w, h, corner.x, corner.y, sub)
    {
      if sub.x == qw {
        PastingWrap(r, q, qw, qh, base, w, h, corner.x, corner.y, sub, p);
        sub := IVec2(0, sub.y + 1);
        pos := IVec2(corner.x, pos.y + 1);
      }
      CursorRow(qw, qh, p, sub.x, sub.y);
      StopIsFirstOutside(qw, qh, corner.x, corner.y, w, h, sub);
      if pos.x >= w || pos.y >= h {
        break;
      }
      r := CopyCell(r, w, h, q, qw, qh, base, corner, sub, pos, p);
      sub := IVec2(sub.x + 1, sub.y);
      pos := IVec2(pos.x + 1, pos.y);
      p := p + 1;
    }
    if sub != stop {
      CursorEnd(qw, qh, sub.x, sub.y);
    }
    PlacedAtStop(r, q, qw, qh, base, w, h, corner.x, corner.y);
  }

  /** One pixel of the copy: `atlas[atlas_pos] = image[subimage_pos]`. */
  method CopyCell(r: seq<Argb32>, w: u32, h: u32, q: seq<Argb32>, qw: u32, qh: u32, ghost base: seq<Argb32>, corner: IVec2,
                  sub: IVec2, pos: IVec2, p: u32)
    returns (r': seq<Argb32>)
    requires |q| == qw * qh && sub.x < qw && sub.y < qh && p == qw * sub.y + sub.x
    requires pos.x == corner.x + sub.x && pos.y == corner.y + sub.y && pos.x < w && pos.y < h
    requires Pasting(r, q, qw, qh, base, w, h, corner.x, corner.y, sub)
    ensures Pasting(r', q, qw, qh, base, w, h, corner.x, corner.y, IVec2(sub.x + 1, sub.y))
  {
    CellBound(w, h, pos.x, pos.y);
    CellBound(qw, qh, sub.x, sub.y);
    PastingClippedStep(r, q, qw, qh, base, w, h, corner.x, corner.y, sub, w * pos.y + pos.x, p);
    r' := r[w * pos.y + pos.x := q[p]];
  }

  /** Copying one pixel of `q` that lands inside the atlas moves the
      copy's walk one step. */
  lemma PastingClippedStep(cur: seq<Argb32>, q: seq<Argb32>, qw: nat, qh: nat, base: seq<Argb32>, w: nat, h: nat, dx: nat, dy: nat,
                           pos: IVec2, t: nat, s: nat)
    requires Pasting(cur, q, qw, qh, base, w, h, dx, dy, pos)
    requires |q| == qw * qh && pos.x < qw && pos.y < qh && dx + pos.x < w && dy + pos.y < h && pos.x + 1 < 0x1_0000_0000
    requires t == w * (dy + pos.y) + (dx + pos.x) && s == qw * pos.y + pos.x
    ensures t < |cur| && s < |q|
    ensures Pasting(cur[t := q[s]], q, qw, qh, base, w, h, dx, dy, IVec2(pos.x + 1, pos.y))
  {
    var cx, cy := dx + pos.x, dy + pos.y;
    CellBound(w, h, cx, cy);
    CellBound(qw, qh, pos.x, pos.y);
    var next := IVec2(pos.x + 1, pos.y);
    forall x: nat, y: nat | x < w && y < h
      ensures At(cur[t := q[s]], w, x, y) == PastingCell(q, qw, qh, base, w, dx, dy, next, x, y)
    {
      AtUpdate(cur, w, h, cx, cy, q[s], x, y);
    }
  }

  // ---------------------------------------------------------------------
  // The whole layout

  /** What `get` has produced so far: its counters, the atlas pixels and
      the recorded elements. */
  datatype Arrangement<Id> = Arrangement(pen: Pen, pixels: seq<Argb32>, ids: map<Id, Element>)

  /** One image laid out: placed at its corner, copied, its element
      recorded, the pen moved right of it. */
  function PlaceEntry<Id>(a: Arrangement<Id>, w: u32, h: u32, e: Entry<Id>): Arrangement<Id>
  {
    var pic := e.picture;
    var c := Corner(a.pen, w, pic);
    Arrangement(NextPen(a.pen, w, pic),
                Placed(pic.pixels, pic.width, pic.height, a.pixels, w, h, c.x, c.y),
                a.ids[e.id := Element(c, IVec2(U32(c.x + pic.width), U32(c.y + pic.height)))])
  }

  /** The first `n` images of one shelf laid out in push order. */
  function PlaceEntries<Id>(a: Arrangement<Id>, w: u32, h: u32, es: seq<Entry<Id>>, n: nat): Arrangement<Id>
    requires n <= |es|
  {
    if n == 0 then a else PlaceEntry(PlaceEntries(a, w, h, es, n - 1), w, h, es[n - 1])
  }

  /** The first `n` shelves laid out in key order. */
  function PlaceShelves<Id>(a: Arrangement<Id>, w: u32, h: u32, data: seq<Shelf<Id>>, n: nat): Arrangement<Id>
    requires n <= |data|
  {
    if n == 0 then a else PlaceEntries(PlaceShelves(a, w, h, data, n - 1), w, h, data[n - 1].entries, |data[n - 1].entries|)
  }

  /** Every atlas produced along the way keeps the atlas's size. */
  lemma {:induction false} PlaceEntriesSize<Id>(a: Arrangement<Id>, w: u32, h: u32, es: seq<Entry<Id>>, n: nat)
    requires n <= |es| && |a.pixels| == w * h
    ensures |PlaceEntries(a, w, h, es, n).pixels| == w * h
  {
    if n > 0 {
      PlaceEntriesSize(a, w, h, es, n - 1);
    }
  }

  lemma {:induction false} PlaceShelvesSize<Id>(a: Arrangement<Id>, w: u32, h: u32, data: seq<Shelf<Id>>, n: nat)
    requires n <= |data| && |a.pixels| == w * h
    ensures |PlaceShelves(a, w, h, data, n).pixels| == w * h
  {
    if n > 0 {
      PlaceShelvesSize(a, w, h, data, n - 1);
      PlaceEntriesSize(PlaceShelves(a, w, h, data, n - 1), w, h, data[n - 1].entries, |data[n - 1].entries|);
    }
  }

  // ---------------------------------------------------------------------
  // Placements never overlap

  /** A placed image: its corner and its size. */
  datatype Rect = Rect(x: int, y: int, w: int, h: int)

  predicate Apart(a: Rect, b: Rect)
  {
    a.x + a.w <= b.x || b.x + b.w <= a.x || a.y + a.h <= b.y || b.y + b.h <= a.y
  }

  /** Where the rows stand: every image placed so far is no taller than the
      tallest so far and lies either wholly below the pen's row or on that
      row left of the pen. */
  predicate Rows(pen: Pen, placed: seq<Rect>)
  {
    forall k :: 0 <= k < |placed| ==> RowsKeep(pen, placed[k])
  }

  predicate RowsKeep(pen: Pen, r: Rect)
  {
    r.h <= pen.prevHeight && (r.y + r.h <= pen.y || (r.y == pen.y && r.x + r.w <= pen.x))
  }

  /** The rectangle an image occupies once placed. */
  function Footprint(pen: Pen, width: u32, pic: Picture): Rect
  {
    var c := Corner(pen, width, pic);
    Rect(c.x, c.y, pic.width, pic.height)
  }

  /** As long as the running totals do not wrap, the next image lands
      apart from every image placed before it, and the rows stand for the
      pen that follows it. */
  lemma PlacementKeepsApart(pen: Pen, width: u32, pic: Picture, placed: seq<Rect>)
    requires Rows(pen, placed)
    requires pen.x + pic.width < 0x1_0000_0000 && pen.y + Tallest(pen, pic) < 0x1_0000_0000
    ensures forall k :: 0 <= k < |placed| ==> Apart(placed[k], Footprint(pen, width, pic))
    ensures Rows(NextPen(pen, width, pic), placed + [Footprint(pen, width, pic)])
  {
    var next := NextPen(pen, width, pic);
    var f := Footprint(pen, width, pic);
    forall k | 0 <= k < |placed|
      ensures Apart(placed[k], f) && RowsKeep(next, placed[k])
    {
      assert RowsKeep(pen, placed[k]);
    }
    var all := placed + [f];
    forall k | 0 <= k < |all|
      ensures RowsKeep(next, all[k])
    {
      if k < |placed| {
        assert all[k] == placed[k];
      }
    }
  }

  // ---------------------------------------------------------------------
  // The atlas

  class TextureAtlas<Id(==)> {
    var width: u32
    var height: u32
    var usedSpace: u32
    var background: Argb32
    var ids: map<Id, Element>
    var data: seq<Shelf<Id>>

    /** The atlas invariant over the current fields. */
    ghost predicate Valid()
      reads this`width, this`height, this`usedSpace, this`data, this`ids
    {
      Stocked(width, height, usedSpace, data, ids.Keys)
    }

    /** `texture_atlas(width, height, background_color)`: nothing stored. */
    constructor (w: u32, h: u32, c: Argb32)
      requires w * h < 0x1_0000_0000
      ensures width == w && height == h && background == c
      ensures usedSpace == 0 && ids == map[] && data == []
      ensures Valid()
    {
      width, height, usedSpace, background := w, h, 0, c;
      ids, data := map[], [];
    }

    /** `push`: refused when the used space plus the image's pixel count
        (both in `uint32_t` arithmetic) exceeds the capacity, or when the id
        is already registered; otherwise the id gets the zero element, the
        image goes to the end of the shelf of its pixel count, and the used
        space grows by that count. */
    method Push(bitmap: BitmapImage, id: Id) returns (ok: bool)
      requires Valid() && bitmap.Valid()
      modifies this
      ensures Valid()
      ensures ok <==> U32(old(usedSpace) + |bitmap.pixels|) <= width * height && id !in old(ids)
      ensures !ok ==> ids == old(ids) && data == old(data) && usedSpace == old(usedSpace)
      ensures ok ==> ids == old(ids)[id := ZERO_ELEMENT]
      ensures ok ==> data == AddToShelf(old(data), |bitmap.pixels|, Entry(id, Picture(bitmap.width, bitmap.height, bitmap.pixels)))
      ensures ok ==> usedSpace == U32(old(usedSpace) + |bitmap.pixels|)
      ensures width == old(width) && height == old(height) && background == old(background)
    {
      var size := U32(bitmap.width * bitmap.height);
      var capacity := U32(width * height);
      assert size == |bitmap.pixels| && capacity == width * height;
      if U32(usedSpace + size) > capacity {
        return false;
      }
      if id in ids {
        return false;
      }
      Store(bitmap, id, size);
      ok := true;
    }

    /** The accepted branch of `push`: the id gets the zero element, the
        image goes to the end of the shelf of its pixel count, and the used
        space grows by that count. */
    method Store(bitmap: BitmapImage, id: Id, size: u32)
      requires Valid() && bitmap.Valid() && size == |bitmap.pixels|
      requires U32(usedSpace + size) <= width * height && id !in ids
      modifies this
      ensures Valid()
      ensures ids == old(ids)[id := ZERO_ELEMENT]
      ensures data == AddToShelf(old(data), size, Entry(id, Picture(bitmap.width, bitmap.height, bitmap.pixels)))
      ensures usedSpace == U32(old(usedSpace) + size)
      ensures width == old(width) && height == old(height) && background == old(background)
    {
      var e := Entry(id, Picture(bitmap.width, bitmap.height, bitmap.pixels));
      StoreKeepsStocked(width, height, usedSpace, data, ids.Keys, size, e);
      assert ids[id := ZERO_ELEMENT].Keys == ids.Keys + {id};
      ids := ids[id := ZERO_ELEMENT];
      data := AddToShelf(data, size, e);
      usedSpace := U32(usedSpace + size);
    }

    /** `get_element`: the recorded element, the zero element for an id
        never pushed. */
    function GetElement(id: Id): (r: Element)
      reads this
      ensures id in ids ==> r == ids[id]
      ensures id !in ids ==> r == ZERO_ELEMENT
    {
      if id in ids then ids[id] else ZERO_ELEMENT
    }

    /** `get`: a new atlas filled with the background colour, every image
        laid out shelf by shelf in ascending pixel count and in push order
        within a shelf, each one's element recorded. */
    method Get() returns (atlas: BitmapImage)
      requires Valid()
      modifies this
      ensures Valid()
      ensures width == old(width) && height == old(height) && background == old(background)
      ensures usedSpace == old(usedSpace) && data == old(data)
      ensures fresh(atlas) && atlas.Valid() && atlas.width == width && atlas.height == height
      ensures var a := PlaceShelves(Arrangement(Pen(0, 0, 0), Fill(width * height, background), old(ids)), width, height, data, |data|);
              atlas.pixels == a.pixels && ids == a.ids
    {
      ghost var start := Arrangement(Pen(0, 0, 0), Fill(width * height, background), ids);
      ghost var keys := ids.Keys;
      atlas := new BitmapImage.Sized(width, height, background);
      var pen := Pen(0, 0, 0);
      var s := 0;
      while s < |data|
        invariant s <= |data| && ids.Keys == keys
        invariant atlas.Valid() && atlas.width == width && atlas.height == height
        invariant Arrangement(pen, atlas.pixels, ids) == PlaceShelves(start, width, height, data, s)
        modifies this`ids, atlas`pixels
      {
        ShelfRegistered(data, keys, s);
        pen := LayOutShelf(atlas, s, pen);
        s := s + 1;
      }
    }

    /** The images of shelf `s`, laid out in push order. */
    method LayOutShelf(atlas: BitmapImage, s: nat, pen: Pen) returns (pen': Pen)
      requires width * height < 0x1_0000_0000 && s < |data| && Filed(data)
      requires forall i :: 0 <= i < |data[s].entries| ==> data[s].entries[i].id in ids
      requires atlas.Valid() && atlas.width == width && atlas.height == height
      modifies this`ids, atlas`pixels
      ensures atlas.Valid() && atlas.width == width && atlas.height == height
      ensures Arrangement(pen', atlas.pixels, ids) ==
              PlaceEntries(Arrangement(pen, old(atlas.pixels), old(ids)), width, height, data[s].entries, |data[s].entries|)
      ensures ids.Keys == old(ids).Keys
    {
      ghost var a0 := Arrangement(pen, atlas.pixels, ids);
      var es := data[s].entries;
      pen' := pen;
      var i := 0;
      while i < |es|
        invariant i <= |es|
        invariant atlas.Valid() && atlas.width == width && atlas.height == height
        invariant Arrangement(pen', atlas.pixels, ids) == PlaceEntries(a0, width, height, es, i)
        invariant ids.Keys == old(ids).Keys
      {
        assert FiledUnder(data[s].entries[i], data[s].size);
        pen' := PlaceOne(atlas, es[i], data[s].size, pen');
        i := i + 1;
      }
    }

    /** One image of `get`'s inner loop: its place, its element, its
        pixels. */
    method PlaceOne(atlas: BitmapImage, e: Entry<Id>, size: u32, pen: Pen) returns (pen': Pen)
      requires width * height < 0x1_0000_0000 && FiledUnder(e, size)
      requires atlas.Valid() && atlas.width == width && atlas.height == height
      modifies this`ids, atlas`pixels
      ensures atlas.Valid()
      ensures Arrangement(pen', atlas.pixels, ids) == PlaceEntry(Arrangement(pen, old(atlas.pixels), old(ids)), width, height, e)
      ensures ids.Keys == old(ids).Keys + {e.id}
    {
      var pic := e.picture;
      var corner;
      corner, pen' := Advance(pen, atlas.width, pic);
      var topRight := IVec2(U32(corner.x + pic.width), U32(corner.y + pic.height));
      ids := ids[e.id := Element(corner, topRight)];
      atlas.pixels := CopyPicture(atlas.pixels, width, height, pic.pixels, pic.width, pic.height, size, corner);
    }
  }

  /** The counters of `get` around one image: the tallest height so far is
      raised, a new row is started when the image would not fit left of
      the right edge, and the pen moves right of the image. */
  method Advance(pen: Pen, width: u32, pic: Picture) returns (corner: IVec2, pen': Pen)
    ensures corner == Corner(pen, width, pic) && pen' == NextPen(pen, width, pic)
  {
    var tx, ty, prevHeight := pen.x, pen.y, pen.prevHeight;
    var currHeight := pic.height;
    if currHeight > prevHeight {
      prevHeight := currHeight;
    }
    corner := IVec2(tx, ty);
    if corner.x >= width || U32(corner.x as int + pic.width as int) >= width {
      corner := IVec2(0, corner.y);
      tx := 0;
      ty := U32(ty as int + prevHeight as int);
      corner := IVec2(corner.x, ty);
    }
    tx := U32(tx as int + pic.width as int);
    pen' := Pen(tx, ty, prevHeight);
  }
}
