/** The Microsoft BMP file that `bitmap_image::file` writes: a 14-byte
    BITMAPFILEHEADER, a 108-byte BITMAPV4HEADER and the pixels bottom row
    first, four bytes each.

    The header structs hold their multi-byte fields already byte-swapped
    (or written as byte-swapped constants); `m_push_struct` then emits
    each field most significant byte first, so the file holds every field
    little-endian. */
module BmpFile {
  import opened Util
  import opened Pixels

  /** `bitmap::header`. */
  datatype FileHeader = FileHeader(id: u16, fileSize: u32, app1: u16, app2: u16, dataOffset: u32)

  /** `bitmap::dib_bitmap_v4_header`; `endpoints` are the nine words of
      `cie_xyz_triple`. */
  datatype DibV4Header = DibV4Header(
    headerSize: u32, bmpWidth: i32, bmpHeight: i32, colorPlanes: u16, bitsPerPixel: u16,
    compression: u32, dataSize: u32, hres: i32, vres: i32, paletteColors: u32, importantColors: u32,
    redMask: u32, greenMask: u32, blueMask: u32, alphaMask: u32, colorSpace: u32,
    endpoints: seq<u32>, redGamma: u32, greenGamma: u32, blueGamma: u32)

  /** Bytes before the pixel data. */
  const DATA_OFFSET: u32 := 14 + 108

  /** The file header that `file` fills in for a file of `size` bytes. */
  function MakeFileHeader(size: u32): FileHeader
  {
    FileHeader(0x424D, ByteSwap32(size), 0, 0, ByteSwap32(DATA_OFFSET))
  }

  /** The file size field: `14 + 108 + 4n` cast to `uint32_t`. */
  function FileSize(n: nat): u32
  {
    U32(DATA_OFFSET as int + n * 4)
  }

  /** The data size field: `4n` cast to `uint32_t`. */
  function DataSize(n: nat): u32
  {
    U32(n * 4)
  }

  /** The V4 header that `file` fills in for a `w` × `h` image with
      `dataSize` bytes of pixels (72 dpi, 32 bits per pixel, BI_BITFIELDS
      with BGRA masks, colour space "Win "). */
  function MakeDibHeader(w: u32, h: u32, dataSize: u32): (r: DibV4Header)
    ensures |r.endpoints| == 9
  {
    DibV4Header(
      0x6C00_0000, I32(ByteSwap32(w)), I32(ByteSwap32(h)), 0x0100, 0x2000,
      0x0300_0000, ByteSwap32(dataSize), 0x130B_0000, 0x130B_0000, 0, 0,
      0x0000_FF00, 0x00FF_0000, 0xFF00_0000, 0x0000_00FF, 0x206E_6957,
      [0, 0, 0, 0, 0, 0, 0, 0, 0], 0, 0, 0)
  }

  /** `m_push_struct(header)`: the fields in declaration order. */
  function HeaderBytes(h: FileHeader): (r: seq<u8>)
    ensures |r| == 14
  {
    SplitBytes16(h.id) + SplitBytes32(h.fileSize) + SplitBytes16(h.app1) + SplitBytes16(h.app2)
    + SplitBytes32(h.dataOffset)
  }

  /** The words of `cie_xyz_triple`, in order. */
  function WordsBytes(ws: seq<u32>): (r: seq<u8>)
    ensures |r| == 4 * |ws|
  {
    if ws == [] then [] else WordsBytes(ws[..|ws| - 1]) + SplitBytes32(ws[|ws| - 1])
  }

  /** `m_push_struct(dib_bitmap_v4_header)`: the fields in declaration
      order; `int32_t` fields go through the signed `split_bytes`. */
  function DibBytes(d: DibV4Header): (r: seq<u8>)
    ensures |r| == 72 + 4 * |d.endpoints|
  {
    DibHeadBytes(d) + DibTailBytes(d)
  }

  /** The size, dimensions, planes, bit depth, compression and data size. */
  function DibHeadBytes(d: DibV4Header): (r: seq<u8>)
    ensures |r| == 24
  {
    SplitBytes32(d.headerSize) + SplitBytesSigned32(d.bmpWidth) + SplitBytesSigned32(d.bmpHeight)
    + SplitBytes16(d.colorPlanes) + SplitBytes16(d.bitsPerPixel) + SplitBytes32(d.compression)
    + SplitBytes32(d.dataSize)
  }

  /** Resolution, palette, masks, colour space, endpoints and gammas. */
  function DibTailBytes(d: DibV4Header): (r: seq<u8>)
    ensures |r| == 48 + 4 * |d.endpoints|
  {
    SplitBytesSigned32(d.hres) + SplitBytesSigned32(d.vres)
    + SplitBytes32(d.paletteColors) + SplitBytes32(d.importantColors)
    + SplitBytes32(d.redMask) + SplitBytes32(d.greenMask) + SplitBytes32(d.blueMask)
    + SplitBytes32(d.alphaMask) + SplitBytes32(d.colorSpace)
    + WordsBytes(d.endpoints)
    + SplitBytes32(d.redGamma) + SplitBytes32(d.greenGamma) + SplitBytes32(d.blueGamma)
  }

  /** `m_push_struct(argb32)`: b, g, r, a. */
  function PixelBytes(c: Argb32): (r: seq<u8>)
    ensures |r| == 4
  {
    [c.b, c.g, c.r, c.a]
  }

  /** The pixels in storage order, four bytes each. */
  function PixelsBytes(p: seq<Argb32>): (r: seq<u8>)
    ensures |r| == 4 * |p|
  {
    if p == [] then [] else PixelsBytes(p[..|p| - 1]) + PixelBytes(p[|p| - 1])
  }

  /** The 122 bytes of the two headers of the file of a `w` × `h` image
      whose size fields hold `size` and `dataSize` (`FileSize` and
      `DataSize` of the pixel count); the pixel data (`PixelsBytes`)
      follows them. */
  function HeadersBytes(w: u32, h: u32, size: u32, dataSize: u32): (r: seq<u8>)
    ensures |r| == DATA_OFFSET as int
  {
    HeaderBytes(MakeFileHeader(size)) + DibBytes(MakeDibHeader(w, h, dataSize))
  }

  /** What a BMP reader decodes from the four bytes at `off`: a
      little-endian 32-bit value. */
  function ReadLE32(b: seq<u8>, off: nat): int
    requires off + 4 <= |b|
  {
    b[off] as int + 0x100 * b[off + 1] as int + 0x1_0000 * b[off + 2] as int + 0x100_0000 * b[off + 3] as int
  }

  /** A little-endian 16-bit value at `off`. */
  function ReadLE16(b: seq<u8>, off: nat): int
    requires off + 2 <= |b|
  {
    b[off] as int + 0x100 * b[off + 1] as int
  }

  /** A byte-swapped field, emitted most significant byte first, reads
      back little-endian as the value before the swap. */
  lemma SwappedFieldReads(v: u32)
    ensures ReadLE32(SplitBytes32(ByteSwap32(v)), 0) == v
    ensures ReadLE32(SplitBytesSigned32(I32(ByteSwap32(v))), 0) == v
  {
    var s := SplitBytes32(v);
    assert SplitBytes32(ByteSwap32(v)) == Reverse4(s);
    assert JoinBytes32(s) == v;
    SignedSplitIsUnsignedSplit(I32(ByteSwap32(v)));
    UnsignedOfSigned32(ByteSwap32(v));
  }

  /** Pixel `k` occupies bytes 4k .. 4k + 3 of the pixel data, in the order
      b, g, r, a. */
  lemma {:induction false} PixelsBytesAt(p: seq<Argb32>, k: nat)
    requires k < |p|
    ensures PixelsBytes(p)[4 * k .. 4 * k + 4] == [p[k].b, p[k].g, p[k].r, p[k].a]
  {
    var last := |p| - 1;
    var pre := PixelsBytes(p[..last]);
    assert PixelsBytes(p) == pre + PixelBytes(p[last]);
    if k < last {
      PixelsBytesAt(p[..last], k);
      assert PixelsBytes(p)[4 * k .. 4 * k + 4] == pre[4 * k .. 4 * k + 4];
    } else {
      assert PixelsBytes(p)[4 * k .. 4 * k + 4] == PixelBytes(p[last]);
    }
  }

  /** Cutting a header back into its fields: each field sits at the sum of
      the lengths before it. */
  lemma HeaderFields(a: seq<u8>, b: seq<u8>, c: seq<u8>, d: seq<u8>, e: seq<u8>)
    requires |a| == 2 && |b| == 4 && |c| == 2 && |d| == 2 && |e| == 4
    ensures var s := a + b + c + d + e;
      s[0..2] == a && s[2..6] == b && s[6..8] == c && s[8..10] == d && s[10..14] == e
  {
    var s := a + b + c + d + e;
    assert s == a + (b + (c + (d + e)));
  }

  /** The first seven fields of the V4 header as they come out of the
      concatenation. */
  lemma DibFields(a: seq<u8>, b: seq<u8>, c: seq<u8>, d: seq<u8>, e: seq<u8>, f: seq<u8>, g: seq<u8>, rest: seq<u8>)
    requires |a| == 4 && |b| == 4 && |c| == 4 && |d| == 2 && |e| == 2 && |f| == 4 && |g| == 4
    ensures var s := a + b + c + d + e + f + g + rest;
      s[0..4] == a && s[4..8] == b && s[8..12] == c && s[12..14] == d && s[14..16] == e
      && s[16..20] == f && s[20..24] == g
  {
    var s := a + b + c + d + e + f + g + rest;
    assert s == a + (b + (c + (d + (e + (f + (g + rest))))));
  }

  /** The fields of any file header, read back from where the
      concatenation puts them. */
  lemma HeaderReads(fh: FileHeader)
    ensures var hb := HeaderBytes(fh);
      hb[0..2] == SplitBytes16(fh.id)
      && ReadLE32(hb, 2) == ReadLE32(SplitBytes32(fh.fileSize), 0)
      && hb[6..8] == SplitBytes16(fh.app1)
      && hb[8..10] == SplitBytes16(fh.app2)
      && ReadLE32(hb, 10) == ReadLE32(SplitBytes32(fh.dataOffset), 0)
  {
    var hb := HeaderBytes(fh);
    var s1, s2, s3, s4, s5 := SplitBytes16(fh.id), SplitBytes32(fh.fileSize), SplitBytes16(fh.app1),
      SplitBytes16(fh.app2), SplitBytes32(fh.dataOffset);
    HeaderFields(s1, s2, s3, s4, s5);
    ReadField32(hb, 2, s2);
    ReadField32(hb, 10, s5);
  }

  /** The file header: "BM", the file size, two zero words, offset 122. */
  lemma HeaderLayout(size: u32)
    ensures var hb := HeaderBytes(MakeFileHeader(size));
      hb[0] == 'B' as u8 && hb[1] == 'M' as u8
      && ReadLE32(hb, 2) == size
      && ReadLE32(hb, 6) == 0
      && ReadLE32(hb, 10) == 122
  {
    HeaderReads(MakeFileHeader(size));
    SwappedFieldReads(size);
    SwappedFieldReads(DATA_OFFSET);
    HeaderConstants();
  }

  /** The constant fields of the file header. */
  lemma HeaderConstants()
    ensures SplitBytes16(0x424D) == ['B' as u8, 'M' as u8] && SplitBytes16(0) == [0, 0]
  {
  }

  /** A four-byte field read back from where it sits. */
  lemma ReadField32(s: seq<u8>, off: nat, field: seq<u8>)
    requires off + 4 <= |s| && s[off .. off + 4] == field
    ensures ReadLE32(s, off) == ReadLE32(field, 0)
  {
    assert s[off] == field[0] && s[off + 1] == field[1] && s[off + 2] == field[2] && s[off + 3] == field[3];
  }

  lemma ReadField16(s: seq<u8>, off: nat, field: seq<u8>)
    requires off + 2 <= |s| && s[off .. off + 2] == field
    ensures ReadLE16(s, off) == ReadLE16(field, 0)
  {
    assert s[off] == field[0] && s[off + 1] == field[1];
  }

  /** The first seven fields of any V4 header, where the concatenation
      puts them. */
  lemma DibPrefix(d: DibV4Header)
    ensures var db := DibBytes(d);
      |db| >= 24
      && db[0..4] == SplitBytes32(d.headerSize)
      && db[4..8] == SplitBytesSigned32(d.bmpWidth)
      && db[8..12] == SplitBytesSigned32(d.bmpHeight)
      && db[12..14] == SplitBytes16(d.colorPlanes)
      && db[14..16] == SplitBytes16(d.bitsPerPixel)
      && db[16..20] == SplitBytes32(d.compression)
      && db[20..24] == SplitBytes32(d.dataSize)
  {
    var rest := DibTailBytes(d);
    var a, b, c := SplitBytes32(d.headerSize), SplitBytesSigned32(d.bmpWidth), SplitBytesSigned32(d.bmpHeight);
    var e, f, g, k := SplitBytes16(d.colorPlanes), SplitBytes16(d.bitsPerPixel), SplitBytes32(d.compression), SplitBytes32(d.dataSize);
    assert DibBytes(d) == a + b + c + e + f + g + k + rest;
    DibFields(a, b, c, e, f, g, k, rest);
  }

  /** The values of the first seven fields of any V4 header. */
  lemma DibPrefixReads(d: DibV4Header)
    ensures var db := DibBytes(d);
      |db| >= 24
      && ReadLE32(db, 0) == ReadLE32(SplitBytes32(d.headerSize), 0)
      && ReadLE32(db, 4) == ReadLE32(SplitBytesSigned32(d.bmpWidth), 0)
      && ReadLE32(db, 8) == ReadLE32(SplitBytesSigned32(d.bmpHeight), 0)
      && ReadLE16(db, 12) == ReadLE16(SplitBytes16(d.colorPlanes), 0)
      && ReadLE16(db, 14) == ReadLE16(SplitBytes16(d.bitsPerPixel), 0)
      && ReadLE32(db, 16) == ReadLE32(SplitBytes32(d.compression), 0)
      && ReadLE32(db, 20) == ReadLE32(SplitBytes32(d.dataSize), 0)
  {
    var db := DibBytes(d);
    DibPrefix(d);
    ReadField32(db, 0, SplitBytes32(d.headerSize));
    ReadField32(db, 4, SplitBytesSigned32(d.bmpWidth));
    ReadField32(db, 8, SplitBytesSigned32(d.bmpHeight));
    ReadField16(db, 12, SplitBytes16(d.colorPlanes));
    ReadField16(db, 14, SplitBytes16(d.bitsPerPixel));
    ReadField32(db, 16, SplitBytes32(d.compression));
    ReadField32(db, 20, SplitBytes32(d.dataSize));
  }

  /** The start of the V4 header: its size 108, the width and height, one
      plane, 32 bits per pixel, BI_BITFIELDS (3) and the pixel data size. */
  lemma DibLayout(w: u32, h: u32, dataSize: u32)
    ensures var db := DibBytes(MakeDibHeader(w, h, dataSize));
      |db| == 108
      && ReadLE32(db, 0) == 108
      && ReadLE32(db, 4) == w
      && ReadLE32(db, 8) == h
      && ReadLE16(db, 12) == 1
      && ReadLE16(db, 14) == 32
      && ReadLE32(db, 16) == 3
      && ReadLE32(db, 20) == dataSize
  {
    var d := MakeDibHeader(w, h, dataSize);
    DibPrefixReads(d);
    SwappedFieldReads(w);
    SwappedFieldReads(h);
    SwappedFieldReads(dataSize);
    DibConstants();
  }

  /** The constant fields of the V4 header read back as 108, 3, 1 and 32. */
  lemma DibConstants()
    ensures ReadLE32(SplitBytes32(0x6C00_0000), 0) == 108
    ensures ReadLE32(SplitBytes32(0x0300_0000), 0) == 3
    ensures ReadLE16(SplitBytes16(0x0100), 0) == 1 && ReadLE16(SplitBytes16(0x2000), 0) == 32
  {
  }

  /** The layout of the whole file: the file header, the V4 header from
      byte 14, and the pixel data from byte 122 (`PixelsBytesAt` gives the
      place of each pixel in it). */
  lemma FileLayout(w: u32, h: u32, size: u32, dataSize: u32, p: seq<Argb32>)
    ensures var f := HeadersBytes(w, h, size, dataSize) + PixelsBytes(p);
      |f| == 122 + 4 * |p|
      && f[..14] == HeaderBytes(MakeFileHeader(size))
      && f[14..122] == DibBytes(MakeDibHeader(w, h, dataSize))
      && f[122..] == PixelsBytes(p)
  {
    var hb := HeaderBytes(MakeFileHeader(size));
    var db := DibBytes(MakeDibHeader(w, h, dataSize));
    var f := hb + db + PixelsBytes(p);
    assert f[..14] == hb;
    assert f[14..122] == db;
    assert f[122..] == PixelsBytes(p);
  }
}
