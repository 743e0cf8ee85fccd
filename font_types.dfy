/** The records of the TrueType tables and the outline data types of the
    rasterizer, with their defaults and equality operators. */
module FontTypes {
  import opened Util

  // ---------------------------------------------------------------------
  // Table records

  /** One entry of the table directory. */
  datatype TableRecord = TableRecord(tag: u32, checksum: u32, offset: u32, length: u32)

  /** The record a lookup of an absent tag default-inserts: all zero. */
  const ZeroRecord := TableRecord(0, 0, 0, 0)

  /** One cmap encoding record. */
  datatype CmapEncoding = CmapEncoding(platformId: u16, encodingId: u16, offset: u32)

  /** The cmap header with its encoding records, in file order. */
  datatype CmapHeader = CmapHeader(version: u16, numTables: u16, encodingRecords: seq<CmapEncoding>)

  /** The fields of a format 4 subtable that are read: the segment count
      (doubled) and the four parallel segment arrays.  The glyph id array is
      not copied; lookups read it from the file bytes. */
  datatype CmapFormat4 = CmapFormat4(
    segCountX2: u16,
    endCode: seq<u16>,
    startCode: seq<u16>,
    idDelta: seq<i16>,
    idRangeOffset: seq<u16>)

  /** The empty subtable the decoder starts from. */
  const EmptyFormat4 := CmapFormat4(0, [], [], [], [])

  /** One hmtx record, in font design units. */
  datatype LongHorMetric = LongHorMetric(advanceWidth: u16, lsb: i16)

  // ---------------------------------------------------------------------
  // Simple glyph flags

  const ON_CURVE_POINT: u8 := 0x01
  const X_SHORT_VECTOR: u8 := 0x02
  const Y_SHORT_VECTOR: u8 := 0x04
  const REPEAT_FLAG: u8 := 0x08
  const X_IS_SAME_OR_POSITIVE_X_SHORT_VECTOR: u8 := 0x10
  const Y_IS_SAME_OR_POSITIVE_Y_SHORT_VECTOR: u8 := 0x20
  const OVERLAP_SIMPLE: u8 := 0x40

  /** `(v & mask) == mask` for a mask with a single bit set. */
  predicate HasBit(v: nat, mask: nat)
    requires mask > 0
  {
    (v / mask) % 2 == 1
  }

  /** The decoded flag bits of one outline point. */
  datatype GlyphFlags = GlyphFlags(
    onCurvePoint: bool,
    xShortVector: bool,
    yShortVector: bool,
    repeatFlag: bool,
    repeatCount: u8,
    xIsSameOrPositive: bool,
    yIsSameOrPositive: bool,
    overlapSimple: bool)

  /** The flag record built from one flag byte and the repeat count read
      after it (zero when the byte does not repeat). */
  function FlagsOf(flag: u8, repeatCount: u8): (r: GlyphFlags)
    ensures r.repeatFlag <==> HasBit(flag, REPEAT_FLAG as nat)
    ensures r.onCurvePoint <==> flag % 2 == 1
  {
    GlyphFlags(
      HasBit(flag, ON_CURVE_POINT as nat),
      HasBit(flag, X_SHORT_VECTOR as nat),
      HasBit(flag, Y_SHORT_VECTOR as nat),
      HasBit(flag, REPEAT_FLAG as nat),
      repeatCount,
      HasBit(flag, X_IS_SAME_OR_POSITIVE_X_SHORT_VECTOR as nat),
      HasBit(flag, Y_IS_SAME_OR_POSITIVE_Y_SHORT_VECTOR as nat),
      HasBit(flag, OVERLAP_SIMPLE as nat))
  }

  // ---------------------------------------------------------------------
  // Composite glyph components

  const ARG_1_AND_2_ARE_WORDS: u16 := 0x0001
  const ARGS_ARE_XY_VALUES: u16 := 0x0002
  const ROUND_XY_TO_GRID: u16 := 0x0004
  const WE_HAVE_A_SCALE: u16 := 0x0008
  const MORE_COMPONENTS: u16 := 0x0020
  const WE_HAVE_AN_X_AND_Y_SCALE: u16 := 0x0040
  const WE_HAVE_A_TWO_BY_TWO: u16 := 0x0080
  const WE_HAVE_INSTRUCTIONS: u16 := 0x0100
  const USE_MY_METRICS: u16 := 0x0200
  const OVERLAP_COMPOUND: u16 := 0x0400
  const SCALED_COMPONENT_OFFSET: u16 := 0x0800
  const UNSCALED_COMPONENT_OFFSET: u16 := 0x1000

  /** One component record of a composite glyph.  The arguments and scales
      that a record does not carry keep their default 0. */
  datatype GlyphComponent = GlyphComponent(
    flag: u16,
    glyphIndex: u16,
    xyArg1: i16,
    xyArg2: i16,
    ptArg1: u16,
    ptArg2: u16,
    scale: u16,
    xScale: u16,
    yScale: u16,
    scale01: u16,
    scale10: u16,
    roundToNearestGridLine: bool,
    instructionsPresent: bool,
    useBaseGlyphAwAndLsb: bool,
    overlapCompound: bool,
    scaledComponentOffset: bool)

  /** A component with only its flag and glyph index set. */
  function NewComponent(flag: u16, glyphIndex: u16): (c: GlyphComponent)
    ensures c.xyArg1 == 0 && c.xyArg2 == 0 && c.ptArg1 == 0 && c.ptArg2 == 0
    ensures c.flag == flag && c.glyphIndex == glyphIndex
  {
    GlyphComponent(flag, glyphIndex, 0, 0, 0, 0, 0, 0, 0, 0, 0, false, false, false, false, false)
  }

  // ---------------------------------------------------------------------
  // Glyphs

  /** A decoded glyph outline in font design units. */
  datatype TruetypeGlyph = TruetypeGlyph(
    id: u16,
    xMin: i16, yMin: i16, xMax: i16, yMax: i16,
    numContours: i16,
    endPtsOfContours: seq<u16>,
    numPoints: u16,
    instructionLen: u16,
    instructions: seq<u8>,
    advanceWidth: u16,
    leftSideBearing: i16,
    flags: seq<GlyphFlags>,
    xCoords: seq<i16>,
    yCoords: seq<i16>)

  /** A glyph with every field at its default and the given id. */
  function EmptyGlyph(id: u16): (g: TruetypeGlyph)
    ensures g.id == id && g.numContours == 0 && g.numPoints == 0
    ensures g.flags == [] && g.xCoords == [] && g.yCoords == [] && g.endPtsOfContours == []
  {
    TruetypeGlyph(id, 0, 0, 0, 0, 0, [], 0, 0, [], 0, 0, [], [], [])
  }

  // ---------------------------------------------------------------------
  // Outline values of the rasterizer

  /** A 26.6 fixed-point coordinate and the sampled floating-point value it
      was rounded from (`vectorial`, kept only as an ordering key). */
  datatype GlyphValue = GlyphValue(f26: u32, vectorial: real)

  /** `glyph_value ==`: both the 26.6 value and the vectorial value agree. */
  function GlyphValueEq(a: GlyphValue, b: GlyphValue): (r: bool)
    ensures r <==> a == b
  {
    a.f26 == b.f26 && a.vectorial == b.vectorial
  }

  /** `glyph_value !=`: the negation of `==`. */
  function GlyphValueNe(a: GlyphValue, b: GlyphValue): (r: bool)
    ensures r <==> a != b
  {
    !GlyphValueEq(a, b)
  }

  /** One crossing of a row: its value, the id of the segment it was sampled
      from and that segment's traits. */
  datatype GlyphOutlineValue = GlyphOutlineValue(
    value: GlyphValue,
    segmentId: int,
    memberOfOnSegment: bool,
    partOfBezier: bool,
    partOfHorizontal: bool)

  /** A value-initialised outline value: segment id -1 ("no segment") and
      every trait false. */
  const DefaultOutlineValue := GlyphOutlineValue(GlyphValue(0, 0.0), -1, false, false, false)

  /** The outline value with its vectorial key replaced. */
  function WithVectorial(a: GlyphOutlineValue, v: real): GlyphOutlineValue {
    a.(value := a.value.(vectorial := v))
  }

  /** `glyph_outline_value ==`: equality of everything except the vectorial
      key. */
  function OutlineValueEq(a: GlyphOutlineValue, b: GlyphOutlineValue): (r: bool)
    ensures r <==> WithVectorial(a, 0.0) == WithVectorial(b, 0.0)
  {
    a.value.f26 == b.value.f26 && a.segmentId == b.segmentId
    && a.memberOfOnSegment == b.memberOfOnSegment && a.partOfBezier == b.partOfBezier
    && a.partOfHorizontal == b.partOfHorizontal
  }

  /** Outline value equality does not look at the vectorial key. */
  lemma OutlineValueEqIgnoresVectorial(a: GlyphOutlineValue, v: real, w: real)
    ensures OutlineValueEq(WithVectorial(a, v), WithVectorial(a, w))
    ensures GlyphValueEq(WithVectorial(a, v).value, WithVectorial(a, w).value) <==> v == w
  {
  }

  /** A segment of the outline in 26.6 units with its traits and its sampled
      crossings (row → x values). */
  datatype GlyphOutlineSegment = GlyphOutlineSegment(
    start: IVec2,
    end: IVec2,
    control: IVec2,
    bezier: bool,
    denotesOnTransition: bool,
    horizontal: bool,
    vertical: bool,
    direction: int,
    values: map<u32, seq<GlyphValue>>)

  /** A freshly constructed segment: direction -1, every trait false. */
  const DefaultSegment := GlyphOutlineSegment(IVec2(0, 0), IVec2(0, 0), IVec2(0, 0), false, false, false, false, -1, map[])
}
