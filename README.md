# font_face in Dafny

A model of the core of **font_face**, a small C++ library that reads
TrueType (`.ttf`) fonts and rasterizes their glyphs into 32-bit BGRA
bitmaps, together with the bitmap canvas, the texture atlas, the bitmap
string and the command-line token parser that the library ships with.

The model follows the program file by file:

| Dafny file | what it models |
|---|---|
| `util.dfy` (`Util`) | byte splitting and joining, the byte swap, and `vector_reader` as a class whose cursor the readers advance |
| `font_types.dfy` (`FontTypes`) | the TrueType records, glyph flags and components, the outline value and segment records |
| `truetype.dfy` (`TrueType`) | the file parser as pure functions of the file bytes: offset table and directory, `maxp`, `hhea`/`head`, `hmtx`, `loca`, `cmap` format 4, the glyph-id lookup, simple and composite glyph data, and the glyph cache |
| `faces.dfy` (`Faces`) | `font_face` as a class: every reading method walks the reader and is proved equal to the matching `TrueType` function |
| `f26.dfy` (`Fixed26`) | the 26.6 fixed-point floor, ceiling, rounding and midpoint |
| `contours.dfy` (`Contours`) | the shift to non-negative coordinates and the walk that turns contours into line and curve requests |
| `outline.dfy` (`Outline`) | segment classification, the assembly of per-row crossings and the outline stroke |
| `fill.dfy` (`InteriorFill`) | the scanline interior fill: adjacent segment, duplicate crossing, the fill test, and the pair-by-pair row walk |
| `raster.dfy` (`Rasterizer`) | the rasterizer's integer skeleton: assembly, sorting (a parameter), stroke and fill |
| `pixels.dfy`, `canvas.dfy` (`Pixels`, `Canvas`) | the pixel type, the coordinate/index conversions with 32-bit wrap-around, and the reference images (window, paste, move, swap) that the bitmap methods are proved against |
| `bitmap.dfy`, `bmp.dfy` (`Bitmap`, `BmpFile`) | `bitmap_image` as a class over a pixel sequence: crop, extrude, translate, swap, insert, delete, and the BMP (V4 header) file bytes |
| `texture_atlas.dfy` (`TextureAtlas`) | the atlas class: `push`, `get_element`, and `get`'s shelf layout |
| `bitmap_string.dfy` (`GlyphString`) | `bitmap_string`: rendering each character and laying the glyph bitmaps side by side |
| `input_parser.dfy` (`InputParser`) | `input_parser`: token lookup and the value that follows a token |
| `wrappers.dfy` (`Wrappers`) | `Option` and `Result` |

Every read that the C++ code does past the end of the file bytes is
undefined behaviour there; the model turns it into `Err(OutOfBounds)` so
that each parsing function is total and its failure cases can be stated.
Integers are unbounded in Dafny; `uint16_t`, `int16_t`, `uint32_t` and
`int32_t` arithmetic is wrapped explicitly with `U16`, `I16`, `U32` and `I32`.

## Model

| member | source | states |
|---|---|---|
| Util.U32 | src/util.hpp:20-23 | a value already in the unsigned 32-bit range is kept unchanged by the wrap |
| Util.U16 | src/font_face.cpp:977-983 | a value already in the unsigned 16-bit range is kept unchanged by the wrap |
| Util.I16 | src/font_face.cpp:960-970 | a value already in the signed 16-bit range is kept unchanged by the wrap |
| Util.I32 | src/util.hpp:55-59 | a value already in the signed 32-bit range is kept unchanged by the wrap |
| Util.WrapIsModular | src/util.hpp:20-23 | each of the four wraps differs from its argument by a multiple of 2^16 or 2^32, i.e. it is arithmetic modulo the width |
| Util.SignExtend8 | src/font_face.cpp:841-844 | a byte read as `char` is sign-extended: bytes below 0x80 keep their value, others become the negative number with the same low byte |
| Util.SplitBytes32 | src/util.cpp:10-22 | splitting a 32-bit value gives four bytes that join back to the value |
| Util.SplitBytesSigned32 | src/util.cpp:24-36 | splitting a signed 32-bit value gives four bytes whose two's-complement join is the value |
| Util.SplitBytes16 | src/util.cpp:38-46 | splitting a 16-bit value gives two bytes that join back to the value |
| Util.JoinBytes32Digits | src/util.cpp:48-66 | the big-endian join of four bytes is the base-256 number they spell, most significant first |
| Util.SplitJoinBytes16 | src/util.cpp:68-75 | splitting the join of two bytes gives the same two bytes back |
| Util.JoinBytesSigned16 | src/util.cpp:93-104 | the signed 16-bit join is the unsigned join reinterpreted as two's complement |
| Util.SplitJoinBytesSigned16 | src/util.cpp:93-104 | the signed 16-bit join loses no bytes: splitting its bit pattern gives the two bytes back |
| Util.JoinInt32 | src/util.cpp:77-91 | corrected signed 32-bit join: its bit pattern is the unsigned big-endian join of the four bytes |
| Util.JoinBytesSigned32 | src/util.cpp:77-91 | the signed 32-bit join as written: agrees with the two's-complement join when the three low bytes are below 0x80, and is negative whenever the last byte is at least 0x80 |
| Util.JoinBytesSigned32Differs | src/util.cpp:77-91 | the bytes 00 00 00 80 join to -128 as written, where the two's-complement value is 128 |
| Util.SplitJoinBytes32 | src/util.cpp:10-22 | joining four bytes and splitting the result gives the same four bytes |
| Util.SplitJoinInt32 | src/util.cpp:24-36 | the corrected signed join and the signed split are inverse on every four bytes |
| Util.SignedSplitIsUnsignedSplit | src/util.cpp:24-36 | the signed split produces the same bytes as the unsigned split of the same bit pattern |
| Util.ByteSwap32 | src/util.cpp:106-117 | the swapped value's bytes are the original bytes in reverse order |
| Util.ByteSwapInvolution | src/util.cpp:106-117 | swapping twice gives the value back |
| Util.LittleEndian | src/util.cpp:106-117 | the reversing loop computes the byte swap, i.e. the four bytes in reverse order |
| Util.U32At | src/util.cpp:157-162 | a 32-bit read succeeds exactly when four bytes remain, returns their big-endian join, and fails out of bounds otherwise |
| Util.U16At | src/util.cpp:164-169 | a 16-bit read succeeds exactly when two bytes remain and returns their big-endian join |
| Util.I16At | src/util.cpp:185-190 | a signed 16-bit read succeeds exactly when two bytes remain and returns their signed join |
| Util.I32At | src/util.cpp:178-183 | a signed 32-bit read succeeds exactly when four bytes remain and returns their two's-complement join |
| Util.ReadsDecodeTheirBytes | src/util.cpp:157-190 | every successful read returns a value whose split is exactly the bytes read |
| Util.U8At | src/util.cpp:171-176 | a byte read succeeds exactly when a byte remains and returns it |
| Util.VectorReader.constructor | src/util.cpp:120-129 | a new reader holds the given bytes with its cursor at 0 |
| Util.VectorReader.SetPosition | src/util.hpp:50 | the cursor moves to the given position |
| Util.VectorReader.IncrementPosition | src/util.hpp:51 | the cursor advances by the given count |
| Util.VectorReader.GetUint32 | src/util.cpp:157-162 | returns the 32-bit read at the cursor and advances the cursor by 4 when it succeeds |
| Util.VectorReader.GetUint16 | src/util.cpp:164-169 | returns the 16-bit read at the cursor and advances the cursor by 2 when it succeeds |
| Util.VectorReader.GetUint8 | src/util.cpp:171-176 | returns the byte at the cursor and advances the cursor by 1 when it succeeds |
| Util.VectorReader.GetInt32 | src/util.cpp:178-183 | returns the signed 32-bit read at the cursor and advances by 4 when it succeeds |
| Util.VectorReader.GetInt16 | src/util.cpp:185-190 | returns the signed 16-bit read at the cursor and advances by 2 when it succeeds |
| FontTypes.FlagsOf | src/font_face.cpp:700-728 | a flag byte's repeat and on-curve fields are exactly its REPEAT_FLAG and ON_CURVE_POINT bits |
| FontTypes.NewComponent | src/font_face.hpp:119-132 | a fresh component carries the read flag and glyph index with zero arguments |
| FontTypes.EmptyGlyph | src/font_face.hpp:201-215 | an empty glyph has the given id and no contours, points, flags or coordinates |
| FontTypes.GlyphValueEq | src/font_face.hpp:145-148 | two glyph values are equal exactly when both the 26.6 value and the vectorial value are |
| FontTypes.GlyphValueNe | src/font_face.hpp:150-153 | inequality is the negation of equality |
| FontTypes.OutlineValueEq | src/font_face.hpp:164-170 | outline values compare every field except the vectorial coordinate |
| FontTypes.OutlineValueEqIgnoresVectorial | src/font_face.hpp:164-170 | two outline values differing only in the vectorial coordinate compare equal, while their glyph values compare equal only when the vectorial coordinates are equal |
| TrueType.Record | src/font_face.cpp:498-500 | looking up a tag missing from the directory gives the zero record (offset 0, length 0) |
| TrueType.PrintableBytesTag | src/font_face.cpp:471-496 | four printable ASCII bytes read as a big-endian key give a printable tag |
| TrueType.DirectoryKeepsFirst | src/font_face.cpp:471-496 | reading more directory records never changes a record already in the directory |
| TrueType.DirectoryTagsPrintable | src/font_face.cpp:471-496 | every key in the directory is a printable tag and is the tag of its record |
| TrueType.U16ArrayFrom | src/font_face.cpp:602-617 | reading n 16-bit values succeeds exactly when 2n bytes remain, and element k is the read at offset 2k |
| TrueType.I16ArrayFrom | src/font_face.cpp:611-612 | reading n signed 16-bit values succeeds exactly when 2n bytes remain, and element k is the read at offset 2k |
| TrueType.BytesFrom | src/font_face.cpp:694-699 | reading n bytes succeeds exactly when n bytes remain, and element k is the byte at offset k |
| TrueType.MetricAt | src/font_face.cpp:532-534 | a horizontal metric is an advance width followed by a signed left side bearing |
| TrueType.MetricsFrom | src/font_face.cpp:526-536 | reading n metrics succeeds exactly when 4n bytes remain, and metric k is read at offset 4k |
| TrueType.Hmtx | src/font_face.cpp:526-547 | hmtx has max(numGlyphs, numberOfHMetrics) entries: the first numberOfHMetrics read from the file and the rest copies of the last one; no metrics for a non-empty font is an error |
| TrueType.LocaShortFrom | src/font_face.cpp:551-556 | short loca offsets are the 16-bit values read in order, each doubled |
| TrueType.LocaLongFrom | src/font_face.cpp:557-562 | long loca offsets are the 32-bit values read in order |
| TrueType.Loca | src/font_face.cpp:549-567 | loca has numGlyphs + 1 offsets; an indexToLocFormat other than 0 or 1 is an error |
| TrueType.EncodingAt | src/font_face.cpp:576-580 | an encoding record is platform id, encoding id and a 32-bit offset, read in that order |
| TrueType.EncodingsFrom | src/font_face.cpp:574-581 | record k of the cmap header is read at offset 8k |
| TrueType.Format4At | src/font_face.cpp:590-619 | a parsed format-4 subtable has four parallel arrays of segCountX2 / 2 entries |
| TrueType.Format4AtReads | src/font_face.cpp:594-617 | the four arrays sit where the format-4 layout puts them (after skipping 6, 6 and 2 bytes) and idRangeOffset's file position is recorded |
| TrueType.SegmentArrays | src/font_face.cpp:602-617 | the four segment arrays each have one entry per segment |
| TrueType.LastBmpFrom | src/font_face.cpp:582-621 | scanning the encoding records keeps a well-formed format-4 subtable |
| TrueType.LastBmpIsLast | src/font_face.cpp:582-621 | the subtable kept is the one of the last (3, 1) record; with no such record the earlier value is kept |
| TrueType.OffsetTable | src/font_face.cpp:458-496 | the offset table is accepted only with sfnt version 0x00010000; another version is an error |
| TrueType.OffsetTableTags | src/font_face.cpp:471-496 | every directory key of a parsed font is a printable tag and equals its record's tag |
| TrueType.MaxpNumGlyphs | src/font_face.cpp:498-512 | numGlyphs is read from maxp only when the maxp version is 0x00010000; another version is an error |
| TrueType.MetricsFields | src/font_face.cpp:498-524 | the metrics fields require the maxp version and take numGlyphs from maxp |
| TrueType.ParseMetrics | src/font_face.cpp:498-567 | the metrics stage fails with the maxp/hhea/head error when those fail, and otherwise yields hmtx and loca read at their table offsets |
| TrueType.CmapHeaderAt | src/font_face.cpp:569-581 | the cmap header has as many encoding records as its numTables field |
| TrueType.ParseCmap | src/font_face.cpp:569-626 | a parsed cmap has a full header and a well-formed format-4 subtable |
| TrueType.ParseCmapTakesLastBmp | src/font_face.cpp:582-626 | parsing cmap succeeds only if some record is (3, 1), and the subtable kept is the one of the last such record |
| TrueType.LastBmpFound | src/font_face.cpp:622-626 | finding a subtable implies a (3, 1) record exists, and the subtable is that of the last one |
| TrueType.ParseFont | src/font_face.cpp:453-628 | a parsed font is well formed, has numGlyphs + 1 loca offsets, and is made of the offset table, metrics and cmap stages |
| TrueType.ParseFontChecks | src/font_face.cpp:453-628 | a font parses only with the right sfnt and maxp versions, printable tags, an indexToLocFormat of 0 or 1 and a (3, 1) cmap record |
| TrueType.ParseFontMetrics | src/font_face.cpp:526-547 | a parsed font's hmtx has max(numGlyphs, numberOfHMetrics) entries read from the file, padded with the last one |
| TrueType.SegmentGlyph | src/font_face.cpp:635-650 | a covering segment with idRangeOffset 0 maps c to c + idDelta mod 2^16; otherwise the id is read from the glyph index array and a non-zero id gets idDelta added |
| TrueType.GlyphIdFromLast | src/font_face.cpp:630-653 | the scan over segments yields the glyph of the last segment covering the code, or the starting value when none covers it |
| TrueType.GlyphIdIsLastCoveringSegment | src/font_face.cpp:630-653 | the glyph id of a character is 0 when no segment covers it and otherwise the id the last covering segment gives |
| TrueType.BoxAt | src/font_face.cpp:666-672 | the glyph header's five fields are read as signed 16-bit values when ten bytes remain |
| TrueType.GlyphHeader | src/font_face.cpp:655-682 | the header gives the glyph its advance width, reads the contour count and box only when an outline is present, and fails for an id past loca or hmtx |
| TrueType.MaxOf | src/font_face.cpp:688-692 | the largest contour end point is one of them and bounds all of them |
| TrueType.FlagRun | src/font_face.cpp:702-727 | one flag byte gives one flag, or 1 + repeat count copies when REPEAT_FLAG is set; it fails only when the byte or its repeat count is missing |
| TrueType.FlagsFrom | src/font_face.cpp:700-728 | flag runs are read until at least n flags exist, and a run can overshoot by fewer than 256 |
| TrueType.CoordDelta | src/font_face.cpp:730-815 | a coordinate delta is a signed 16-bit quantity and consumes 0, 1 or 2 bytes |
| TrueType.CoordsFrom | src/font_face.cpp:730-815 | the coordinate walk produces one coordinate per point and keeps those already read |
| TrueType.DeltasFrom | src/font_face.cpp:730-771 | the deltas are read one per point, each after the one before |
| TrueType.Running | src/font_face.cpp:738-769 | laying deltas over a starting coordinate gives one 16-bit coordinate per delta |
| TrueType.CoordsWalkDeltas | src/font_face.cpp:730-815 | the coordinate walk fails exactly when a delta fails, and otherwise gives the running coordinates of the deltas and ends at the same position |
| TrueType.RunningIsSum | src/font_face.cpp:738-769 | running coordinate j is the start plus the first j + 1 deltas, wrapped to 16 bits |
| TrueType.CoordsAreRunningSums | src/font_face.cpp:730-815 | coordinate j of a glyph is the sum of its first j + 1 deltas wrapped to 16 bits, starting from 0, and the walk succeeds exactly when the deltas decode |
| TrueType.SimpleGlyphData | src/font_face.cpp:684-816 | simple-glyph data keep the glyph's identity, give consistent point arrays and at least one contour, and fail for a negative contour count |
| TrueType.ContourEnds | src/font_face.cpp:688-692 | one end point per contour is read, the glyph is otherwise unchanged, and a negative count is an error |
| TrueType.SimplePoints | src/font_face.cpp:694-816 | instructions, flags and coordinates are read and give one x and y per point |
| TrueType.OutlinePoints | src/font_face.cpp:700-816 | flags and coordinates are read and give one x and y per point |
| TrueType.ComponentArgs | src/font_face.cpp:828-853 | the arguments are two words or two bytes as ARG_1_AND_2_ARE_WORDS says, stored as xy offsets only when ARGS_ARE_XY_VALUES is set |
| TrueType.ScaleBytes | src/font_face.cpp:857-875 | the scale takes no bytes exactly when neither scale flag is set, and never more than 8 |
| TrueType.ComponentScales | src/font_face.cpp:857-875 | the scale fields consume exactly the bytes the flags ask for, and nothing is read without a scale flag |
| TrueType.WithFlagBits | src/font_face.cpp:877-885 | the derived booleans are the component flag bits; the offset is scaled only when SCALED is set and UNSCALED is not |
| TrueType.ComponentAt | src/font_face.cpp:818-890 | a component starts with its flag and glyph index, and has zero offsets unless ARGS_ARE_XY_VALUES is set |
| TrueType.ComponentsFrom | src/font_face.cpp:818-890 | components are read while MORE_COMPONENTS is set, and every one but the last has it set |
| TrueType.ComponentsEndWithoutMore | src/font_face.cpp:818-890 | the last component read does not have MORE_COMPONENTS set |
| TrueType.PieceGlyph | src/font_face.cpp:892-903 | a component's glyph is loaded by id with a consistent outline |
| TrueType.GlyphAndComponents | src/font_face.cpp:905-923 | a glyph with components has a negative contour count, and one without has a consistent outline |
| TrueType.Translate | src/font_face.cpp:960-970 | each coordinate of a component is moved by its offset, wrapped to 16 bits |
| TrueType.ShiftEndPoints | src/font_face.cpp:977-981 | each contour end point of a component is shifted by the points already merged, wrapped to 16 bits |
| TrueType.AppendPiece | src/font_face.cpp:951-992 | merging a component adds its contours and points to the composite's counts and arrays and keeps the composite's identity |
| TrueType.AppendPieceMovesPoints | src/font_face.cpp:960-970 | each merged point is the component's point moved by the component offset, with its flag unchanged |
| TrueType.AppendPieceShiftsEndPoints | src/font_face.cpp:977-981 | each merged end point is the component's end point plus the composite's earlier point count |
| TrueType.PiecesFrom | src/font_face.cpp:938-992 | one glyph is loaded per component, in order |
| TrueType.PiecesAreComponentGlyphs | src/font_face.cpp:938-992 | the k-th loaded glyph is exactly the glyph of the k-th component's index |
| TrueType.MergeFrom | src/font_face.cpp:951-992 | merging keeps the composite's identity, keeps earlier contours and points as prefixes, and keeps the point arrays parallel |
| TrueType.MetricsIndexIsLast | src/font_face.cpp:994-998 | the metrics come from the last component with USE_MY_METRICS set, or from the base when none has it |
| TrueType.CompositeFrom | src/font_face.cpp:938-998 | the interleaved load-and-merge loop keeps the composite's id |
| TrueType.CompositeIsMergeOfPieces | src/font_face.cpp:938-998 | the interleaved loop equals loading all component glyphs first and then merging them, with the metrics index of the last USE_MY_METRICS component |
| TrueType.LoadGlyph | src/font_face.cpp:925-1003 | a loaded glyph has the id the cmap gives the character |
| TrueType.LoadGlyphComposite | src/font_face.cpp:925-1003 | a composite is the merge of its component glyphs, taking advance width and left side bearing from the chosen component when that index is not 0 |
| TrueType.GetGlyphStep | src/font_face.cpp:413-442 | a cached character is answered from the cache; a glyph found is returned and stored under its character or under key 0; a failed load leaves the cache alone; no entry is ever replaced or removed |
| TrueType.GetGlyphIsStable | src/font_face.cpp:413-442 | asking again for a cached character returns the cached glyph and leaves the cache unchanged |
| TrueType.GetGlyphFailuresShareKeyZero | src/font_face.cpp:422-439 | every character that resolves to glyph 0 gets the glyph stored under key 0, and later such characters get that same glyph |
| Faces.FontFace.constructor | src/font_face.cpp:391-400 | a new face holds the file bytes with an empty directory, empty tables, an empty cache and is not ok |
| Faces.FontFace.ReadDirectory | src/font_face.cpp:471-496 | the directory loop stores the records the directory function reads |
| Faces.FontFace.ReadOffsetTable | src/font_face.cpp:458-496 | reading the offset table succeeds exactly when the offset-table function does, and stores its directory |
| Faces.FontFace.ReadLongMetrics | src/font_face.cpp:526-536 | the metric loop stores what MetricsFrom reads |
| Faces.FontFace.RepeatLastMetric | src/font_face.cpp:545-546 | the padding loop appends count copies of the last metric |
| Faces.FontFace.ReadHmtx | src/font_face.cpp:526-547 | reading hmtx stores what Hmtx computes |
| Faces.FontFace.ReadLoca | src/font_face.cpp:549-567 | reading loca stores what Loca computes |
| Faces.FontFace.ReadMaxp | src/font_face.cpp:498-512 | reading maxp returns what MaxpNumGlyphs computes and stores numGlyphs |
| Faces.FontFace.ReadMetricsFields | src/font_face.cpp:498-524 | reading maxp, hhea and head returns MetricsFields and stores numGlyphs and unitsPerEm |
| Faces.FontFace.ReadHheaHeadFields | src/font_face.cpp:514-524 | reading hhea and head returns what HheaHeadFields computes |
| Faces.FontFace.ReadMetricsTables | src/font_face.cpp:498-567 | the metrics stage succeeds exactly when ParseMetrics does and stores its tables |
| Faces.FontFace.ReadU16s | src/font_face.cpp:602-617 | a loop of 16-bit reads returns U16ArrayFrom and moves the cursor past them |
| Faces.FontFace.ReadI16s | src/font_face.cpp:611-612 | a loop of signed 16-bit reads returns I16ArrayFrom and moves the cursor past them |
| Faces.FontFace.ReadEncodings | src/font_face.cpp:574-581 | the encoding loop stores what EncodingsFrom reads |
| Faces.FontFace.ReadSegmentArrays | src/font_face.cpp:602-617 | the four segment loops return what SegmentArrays reads |
| Faces.FontFace.ReadSegCountX2 | src/font_face.cpp:594-599 | segCountX2 is read 6 bytes into the subtable and the cursor lands on endCode |
| Faces.FontFace.ReadFormat4 | src/font_face.cpp:590-619 | reading a subtable returns Format4At |
| Faces.FontFace.ReadBmpSubtables | src/font_face.cpp:582-626 | the record loop keeps the subtable LastBmpFrom selects |
| Faces.FontFace.ReadCmapHeader | src/font_face.cpp:569-581 | reading the cmap header stores CmapHeaderAt |
| Faces.FontFace.ReadCmap | src/font_face.cpp:569-626 | reading cmap succeeds exactly when ParseCmap does and stores it |
| Faces.FontFace.Load | src/font_face.cpp:406-411 | loading succeeds, and sets ok, exactly when ParseFont succeeds, and then the face holds the parsed font |
| Faces.FontFace.ReadTables | src/font_face.cpp:498-626 | the table stages store what ParseMetrics and ParseCmap compute |
| Faces.FontFace.GlyphId | src/font_face.cpp:630-653 | the segment loop returns GlyphIdOf |
| Faces.FontFace.ReadBox | src/font_face.cpp:666-672 | the header reads return BoxAt and leave the cursor after the box |
| Faces.FontFace.ReadHeader | src/font_face.cpp:655-682 | reading the glyph header returns GlyphHeader and leaves the cursor after it |
| Faces.FontFace.ReadBytes | src/font_face.cpp:694-699 | the instruction loop returns BytesFrom |
| Faces.FontFace.ReadFlagRun | src/font_face.cpp:702-727 | reading one flag byte and its repeat count returns FlagRun |
| Faces.FontFace.ReadFlags | src/font_face.cpp:700-728 | the flag loop returns FlagsFrom |
| Faces.FontFace.ReadDelta | src/font_face.cpp:730-772 | reading one coordinate delta returns CoordDelta |
| Faces.FontFace.ReadCoords | src/font_face.cpp:730-815 | the coordinate loop returns CoordsFrom |
| Faces.FontFace.ReadSimplePoints | src/font_face.cpp:694-816 | reading instructions, flags and coordinates returns SimplePoints |
| Faces.FontFace.ReadOutlinePoints | src/font_face.cpp:700-816 | reading flags and coordinates returns OutlinePoints |
| Faces.FontFace.ReadSimpleData | src/font_face.cpp:684-816 | reading a simple glyph returns SimpleGlyphData |
| Faces.FontFace.ReadContourEnds | src/font_face.cpp:688-692 | the end-point loop returns ContourEnds and moves the cursor past 2 bytes per contour |
| Faces.FontFace.ReadComponentArgs | src/font_face.cpp:828-853 | reading the component arguments returns ComponentArgs |
| Faces.FontFace.ReadComponentScales | src/font_face.cpp:857-875 | reading the component scale returns ComponentScales |
| Faces.FontFace.ReadComponent | src/font_face.cpp:818-890 | reading one component returns ComponentAt |
| Faces.FontFace.ReadComponents | src/font_face.cpp:818-890 | the component loop returns ComponentsFrom |
| Faces.FontFace.ReadPiece | src/font_face.cpp:892-903 | loading a component glyph returns PieceGlyph |
| Faces.FontFace.ReadGlyphAndComponents | src/font_face.cpp:905-923 | loading a glyph by id returns GlyphAndComponents |
| Faces.FontFace.MovePoints | src/font_face.cpp:960-970 | the coordinate loop returns Translate |
| Faces.FontFace.AppendEndPoints | src/font_face.cpp:977-981 | the end-point loop appends the shifted end points |
| Faces.FontFace.MergePiece | src/font_face.cpp:951-992 | merging one component returns AppendPiece |
| Faces.FontFace.GetTruetypeGlyph | src/font_face.cpp:925-1003 | loading a glyph for a character returns LoadGlyph |
| Faces.FontFace.GetGlyph | src/font_face.cpp:413-442 | the cached lookup returns and stores what GetGlyphStep computes |
| Fixed26.FloorF26 | src/font_face.cpp:27-30 | the floor is the largest multiple of 64 not above x |
| Fixed26.CeilF26 | src/font_face.cpp:32-35 | the ceiling is the smallest multiple of 64 not below x, and 0 when x + 63 wraps |
| Fixed26.RoundF26 | src/font_face.cpp:22-25 | rounding gives a multiple of 64 within 32 of x, and 0 when x + 32 wraps |
| Fixed26.RoundIsFloorOrCeil | src/font_face.cpp:22-35 | rounding is the floor below the half and the ceiling from the half up; all three fix multiples of 64 |
| Fixed26.F26Monotone | src/font_face.cpp:22-35 | floor, ceiling and rounding are monotone where they do not wrap |
| Fixed26.FloorMonotone | src/font_face.cpp:27-30 | the floor is monotone |
| Fixed26.F26Idempotent | src/font_face.cpp:22-35 | applying any of the three to a result of any of them changes nothing |
| Fixed26.Midpoint | src/font_face.cpp:37-40 | without wrap, each coordinate of the midpoint is the halved sum and lies between its two ends |
| Fixed26.MidpointSymmetric | src/font_face.cpp:37-40 | the midpoint does not depend on the order of the two points |
| Contours.ShiftedIsNonNegative | src/font_face.cpp:1018-1033 | after the shift every coordinate and the box minimum are non-negative and every point moved by the same amount |
| Contours.ShiftToNonNegative | src/font_face.cpp:1018-1033 | the shift loops compute Shifted |
| Contours.Polygon | src/font_face.cpp:1052-1160 | a contour of on-curve points yields one line per point |
| Contours.WalkContour | src/font_face.cpp:1052-1160 | walking one contour closes it back on its first point, and a contour of on-curve points yields exactly its polygon |
| Contours.RunsClosedAppend | src/font_face.cpp:1052-1160 | appending a closed contour's requests keeps every earlier contour's run closed |
| Contours.WalkOutline | src/font_face.cpp:1052-1160 | the outline walk produces one run of requests per contour, each closed on its contour's first point |
| Outline.Direction | src/font_face.cpp:153-157 | direction is 1 left to right, 0 right to left, and unset (-1) for no horizontal movement |
| Outline.Classify | src/font_face.cpp:132-157 | a segment's endpoints are its request's 26.6 grid points, and it keeps the bezier flag and the sampled rows |
| Outline.Contribution | src/font_face.cpp:1163-1184 | a segment contributes one crossing per sampled point on a row, and none to a row it does not reach |
| Outline.TraitsExclusive | src/font_face.cpp:145-157 | a horizontal segment is not a curve, vertical or on-transition; a vertical one has no direction; a line without direction is horizontal or vertical |
| Outline.ReversedSegment | src/font_face.cpp:145-157 | traversing a segment the other way negates its rise, flips on-transition and direction, and keeps horizontal and vertical |
| Outline.LineRiseIsOn | src/font_face.cpp:145-150 | a rising line is an on transition unless its 26.6 endpoints fall on the same row (then it is horizontal); a line that does not rise is never an on transition |
| Outline.RowOfTraces | src/font_face.cpp:1163-1184 | the crossings of a row are exactly the sampled points of the segments on that row, tagged with their segment |
| Outline.AssembleRows | src/font_face.cpp:1163-1184 | the per-row outline holds, for every row, exactly the crossings of all segments on that row, and no row is empty |
| Outline.PaintedOverTwice | src/font_face.cpp:1190-1391 | painting a set of cells and then another set paints their union |
| Outline.Paint | src/font_face.cpp:1198-1206 | painting a cell marks it black and leaves every other pixel as it was |
| Outline.StrokeOutline | src/font_face.cpp:1190-1210 | stroking paints exactly the cells of every segment's start, end and sampled points, and nothing else |
| Outline.StrokeSegment | src/font_face.cpp:1194-1208 | stroking one segment paints its start cell, its end cell and the cell of each of its sampled points |
| Outline.StrokeValues | src/font_face.cpp:1200-1208 | stroking the sampled rows of a segment paints exactly the cells of their points |
| Outline.ValueStrokeAdd | src/font_face.cpp:1194-1208 | stroking one more row adds exactly that row's cells |
| Outline.StrokeRow | src/font_face.cpp:1198-1206 | stroking a row paints exactly the cells of its points |
| InteriorFill.ScanAdjacentIsFirst | src/font_face.cpp:242-287 | the scan finds no segment exactly when none touches the point, and otherwise the first one that does |
| InteriorFill.ScanAdjacent | src/font_face.cpp:242-287 | a segment found by the scan is a different segment touching the point, at or after the start of the scan |
| InteriorFill.AdjacentSegment | src/font_face.cpp:242-287 | an adjacent segment is a different segment starting or ending at the point on that row |
| InteriorFill.AdjacentNone | src/font_face.cpp:242-287 | no adjacent segment is found exactly when no other segment touches the point |
| InteriorFill.AdjacentPrefersSuccessor | src/font_face.cpp:242-287 | the next segment is chosen when it touches the point |
| InteriorFill.GetAdjacentSegmentId | src/font_face.cpp:242-287 | the search loops compute AdjacentSegment |
| InteriorFill.Adjusted | src/font_face.cpp:1333-1344 | a crossing on a horizontal takes its on-flag from the adjacent segment; everything else is unchanged |
| InteriorFill.AdjustHorizontal | src/font_face.cpp:1333-1344 | the adjustment step computes Adjusted |
| InteriorFill.FirstDuplicate | src/font_face.cpp:289-324 | a duplicate found is in the row, at the same x with a differing trait; none found gives the default value |
| InteriorFill.FirstDuplicateIsFirst | src/font_face.cpp:289-324 | a duplicate is found exactly when the row holds one, and it is the first |
| InteriorFill.CheckForDuplicate | src/font_face.cpp:289-324 | the search loop computes FirstDuplicate |
| InteriorFill.FillRule | src/font_face.cpp:326-356 | a range is filled only between different x, always from an on to an off crossing, between two on crossings only for adjacent segments more than a pixel apart, and from an off crossing only on a curve, at or right of its control point, on a row below its segment's end |
| InteriorFill.Carried | src/font_face.cpp:1230-1237 | a pair's start is the crossing itself, or, when the previous pair filled, the same crossing marked as on |
| InteriorFill.SpanColumns | src/font_face.cpp:344-352 | the span paints the pixel columns stepped by 64 from start to end on the row, ending on the end's column when both are on the grid |
| InteriorFill.CheckForAndFillInteriorRange | src/font_face.cpp:326-356 | filling a range returns FillRule's verdict and paints exactly the span's cells when filled |
| InteriorFill.PaintSpan | src/font_face.cpp:344-352 | the span loop paints exactly the span's cells |
| InteriorFill.Special | src/font_face.cpp:1249-1325 | the special case for duplicate crossings at both ends keeps each end one of the crossing, its duplicate, or the crossing with a forced on/off flag |
| InteriorFill.Common | src/font_face.cpp:1327-1383 | the common path keeps both x values and takes each end from the crossing or its duplicate |
| InteriorFill.Resolve | src/font_face.cpp:1247-1383 | resolving a pair keeps its x values and names segments of the outline |
| InteriorFill.ResolvePair | src/font_face.cpp:1247-1383 | the pair-resolution code computes Resolve |
| InteriorFill.PairStep | src/font_face.cpp:1222-1388 | one pair paints the span between its x values when filled, and nothing otherwise |
| InteriorFill.SameXPaintsNothing | src/font_face.cpp:326-356 | a pair whose two crossings share x paints nothing |
| InteriorFill.RowWalkBetween | src/font_face.cpp:1222-1388 | every cell the row walk paints lies on the row between two consecutive crossings |
| InteriorFill.OnOffRowFills | src/font_face.cpp:1222-1388 | a row with one on crossing followed by one off crossing at a different x fills the span between them |
| InteriorFill.LoneCrossingPaintsNothing | src/font_face.cpp:1216-1221 | a row with fewer than two crossings paints nothing |
| InteriorFill.FillRow | src/font_face.cpp:1222-1388 | the pair loop paints exactly RowCells |
| InteriorFill.RowsFillAdd | src/font_face.cpp:1211-1391 | filling one more row adds exactly that row's cells |
| InteriorFill.InsideFillBetween | src/font_face.cpp:1211-1391 | every filled cell lies on some row between two consecutive crossings of that row |
| InteriorFill.FillInside | src/font_face.cpp:1211-1391 | the interior fill paints exactly the union of the rows' cells, and nothing else |
| Rasterizer.ReorderedRowIds | src/font_face.cpp:1186-1189 | any reordering of a row's crossings names only segments of the outline |
| Rasterizer.ReorderedRowFits | src/font_face.cpp:1186-1189 | any reordering of a row's crossings fits the image when all crossings do |
| Rasterizer.RasterizeOutline | src/font_face.cpp:1163-1391 | the rasterizer paints exactly the outline stroke when asked, plus the interior fill of the sorted rows when asked, and nothing else |
| Pixels.Argb32Eq | src/bitmap/bitmap.hpp:75-78 | two pixels are equal exactly when all four channels are |
| Pixels.Region.Width | src/bitmap/bitmap.hpp:85 | the width of a region is the column difference, wrapped to 32 bits when the corners are reversed |
| Pixels.Region.Height | src/bitmap/bitmap.hpp:86 | the height of a region is the row difference, wrapped to 32 bits when the corners are reversed |
| Pixels.NthElementIndex | src/bitmap/bitmap.hpp:134 | the index of a coordinate is width * y + x, wrapped to 32 bits |
| Pixels.IndexWraps | src/bitmap/bitmap.hpp:134 | the index computed by the source's expression equals width * y + x modulo 2^32 |
| Pixels.NthElementCoordinate | src/bitmap/bitmap.cpp:354-361 | the coordinate of an index is its remainder and quotient by the width |
| Pixels.CoordinateOfIndex | src/bitmap/bitmap.cpp:354-361 | converting a coordinate inside the image to an index and back gives the coordinate |
| Pixels.IndexOfCoordinate | src/bitmap/bitmap.cpp:354-361 | converting an index to a coordinate and back gives the index |
| Pixels.ColumnsRemoved | src/bitmap/bitmap.cpp:363-386 | deleting a full-height band of columns keeps, row by row, the columns left and right of the band |
| Pixels.RowsRemoved | src/bitmap/bitmap.cpp:363-386 | deleting a full-width band of rows keeps the rows below and above the band, joined |
| Canvas.WindowTwice | src/bitmap/bitmap.cpp:33-77 | cropping twice is one crop by the summed offsets |
| Canvas.AtWindow | src/bitmap/bitmap.cpp:33-77 | each pixel of a window is the original pixel shifted by the window offset |
| Canvas.WindowWhole | src/bitmap/bitmap.cpp:33-77 | the whole-image window is the image |
| Canvas.CropRight | src/bitmap/bitmap.cpp:41-49 | deleting the right n columns leaves the window at the left |
| Canvas.CropLeft | src/bitmap/bitmap.cpp:50-58 | deleting the left n columns leaves the window starting at column n |
| Canvas.CropTop | src/bitmap/bitmap.cpp:59-67 | deleting the top n rows leaves the lower window |
| Canvas.CropBottom | src/bitmap/bitmap.cpp:68-76 | deleting the bottom n rows leaves the window starting at row n |
| Canvas.PastedTwice | src/bitmap/bitmap.cpp:79-143 | extruding twice is one extrusion by the summed margins |
| Canvas.AtPasted | src/bitmap/bitmap.cpp:322-352 | a pasted image shows the pasted picture inside its footprint and the base everywhere else |
| Canvas.RowsAppended | src/bitmap/bitmap.cpp:101-107 | appending n rows of a colour is pasting the image at the bottom of a taller image of that colour |
| Canvas.RowsPrepended | src/bitmap/bitmap.cpp:128-142 | prepending n rows of a colour is pasting the image n rows up in a taller image of that colour |
| Canvas.PastedWhole | src/bitmap/bitmap.cpp:79-143 | pasting an image over a background of its own size gives the image |
| Canvas.WindowOfPasted | src/bitmap/bitmap.cpp:79-143 | cropping away what extrusion added gives the image back |
| Canvas.MovedBack | src/bitmap/bitmap.cpp:145-242 | moving a region and moving it back restores every cell of the region |
| Canvas.AtMoved | src/bitmap/bitmap.cpp:145-242 | after a move each pixel is the moved region's pixel in the target, white where the region was left, and unchanged elsewhere |
| Canvas.SwappedSymmetric | src/bitmap/bitmap.cpp:244-280 | swapping two blocks does not depend on their order |
| Canvas.DisjointCells | src/bitmap/bitmap.cpp:260-261 | no pixel lies in two blocks that pass the overlap test |
| Canvas.AtSwapped | src/bitmap/bitmap.cpp:263-278 | after a swap each block shows the other block's pixels and the rest is unchanged |
| Canvas.SwappedTwice | src/bitmap/bitmap.cpp:244-280 | swapping two disjoint blocks twice gives the image back |
| Bitmap.CropAcceptedIff | src/bitmap/bitmap.cpp:35-39 | a crop is carried out exactly when the removed rows and columns fit in the image |
| Bitmap.ReversedCornersRefused | src/bitmap/bitmap.cpp:147-153 | on an image under 2^31 wide and tall, a region whose corners are reversed wraps its `uint32_t` width or height past the image and is refused |
| Bitmap.TranslatedRightThenLeft | src/bitmap/bitmap.cpp:154-197 | translating a region right by n and then left by n restores every pixel of the region |
| Bitmap.SwapOrder | src/bitmap/bitmap.cpp:249-255 | the two blocks are reordered so the first is not both right of and above the second |
| Bitmap.SwapAcceptedDisjoint | src/bitmap/bitmap.cpp:246-261 | a swap is carried out only on disjoint blocks inside the image |
| Bitmap.SwapRefusesDisjoint | src/bitmap/bitmap.cpp:249-261 | two disjoint blocks placed diagonally are refused by the overlap test |
| Bitmap.FileHasTotalSize | src/bitmap/bitmap.cpp:282-320 | the BMP file size recorded is the image's total size and the data size is its raw size |
| Bitmap.BitmapImage.PixelAt | src/bitmap/bitmap.hpp:117-120 | reading a pixel gives the pixel at that column and row |
| Bitmap.BitmapImage.SetPixelAt | src/bitmap/bitmap.hpp:117-120 | writing a pixel changes that pixel and no other |
| Bitmap.BitmapImage.PixelCount | src/bitmap/bitmap.hpp:127 | the pixel count is the number of pixels |
| Bitmap.BitmapImage.RawSize | src/bitmap/bitmap.hpp:128 | the raw size is four bytes per pixel |
| Bitmap.BitmapImage.TotalSize | src/bitmap/bitmap.hpp:129 | the total size is the 122 header bytes plus four bytes per pixel |
| Bitmap.BitmapImage.File | src/bitmap/bitmap.cpp:282-320 | the file is the two headers followed by every pixel's bytes |
| Bitmap.BitmapImage.constructor | src/bitmap/bitmap.cpp:8-10 | a default image is empty |
| Bitmap.BitmapImage.Sized | src/bitmap/bitmap.cpp:12-17 | a sized image has width * height pixels of the given colour |
| Bitmap.BitmapImage.Resize | src/bitmap/bitmap.cpp:19-31 | resizing replaces the image by width * height pixels of the given colour |
| Bitmap.BitmapImage.CollectIndexes | src/bitmap/bitmap.cpp:370-379 | the collected indexes are exactly the cells of the rectangle |
| Bitmap.BitmapImage.DeleteRegion | src/bitmap/bitmap.cpp:363-386 | deleting a region keeps, in order, every pixel outside the rectangle |
| Bitmap.BitmapImage.Crop | src/bitmap/bitmap.cpp:33-77 | an accepted crop leaves the window of the image with the cut rows and columns removed; a refused one changes nothing |
| Bitmap.BitmapImage.CropRightColumns | src/bitmap/bitmap.cpp:41-49 | cutting n right columns leaves the left window |
| Bitmap.BitmapImage.CropLeftColumns | src/bitmap/bitmap.cpp:50-58 | cutting n left columns leaves the window starting at column n |
| Bitmap.BitmapImage.CropTopRows | src/bitmap/bitmap.cpp:59-67 | cutting n top rows leaves the lower window |
| Bitmap.BitmapImage.CropBottomRows | src/bitmap/bitmap.cpp:68-76 | cutting n bottom rows leaves the window starting at row n |
| Bitmap.BitmapImage.Extrude | src/bitmap/bitmap.cpp:79-143 | extruding grows the image by the margins, keeps the old image at the left and bottom offsets and fills the rest with the colour |
| Bitmap.BitmapImage.ExtrudeRight | src/bitmap/bitmap.cpp:81-100 | adding n right columns keeps the image at the left |
| Bitmap.BitmapImage.ExtrudeTop | src/bitmap/bitmap.cpp:101-107 | adding n top rows keeps the image at the bottom |
| Bitmap.BitmapImage.ExtrudeLeft | src/bitmap/bitmap.cpp:108-127 | adding n left columns moves the image right by n |
| Bitmap.BitmapImage.ExtrudeBottom | src/bitmap/bitmap.cpp:128-142 | adding n bottom rows moves the image up by n |
| Bitmap.BitmapImage.TranslateRegion | src/bitmap/bitmap.cpp:145-242 | translating moves the region's pixels in each requested direction that stays inside the image, clearing the vacated cells to white |
| Bitmap.BitmapImage.SwapRegions | src/bitmap/bitmap.cpp:244-280 | an accepted swap exchanges the two blocks; a refused one changes nothing |
| Bitmap.BitmapImage.InsertOtherBitmapAtCoordinate | src/bitmap/bitmap.cpp:322-352 | an image that fits strictly inside is pasted at the coordinate; otherwise nothing changes |
| Bitmap.WidenRight | src/bitmap/bitmap.cpp:81-100 | the widening loop pastes the old image at the left of a wider image of the colour |
| Bitmap.WidenLeft | src/bitmap/bitmap.cpp:108-127 | the widening loop pastes the old image n columns in |
| Bitmap.RaiseBottom | src/bitmap/bitmap.cpp:128-142 | adding bottom rows places the old image n rows up |
| Bitmap.TranslateRight | src/bitmap/bitmap.cpp:154-175 | the backward walk moves the region right by n |
| Bitmap.TranslateLeft | src/bitmap/bitmap.cpp:176-197 | the forward walk moves the region left by n |
| Bitmap.TranslateUp | src/bitmap/bitmap.cpp:198-219 | the backward walk moves the region up by n |
| Bitmap.TranslateDown | src/bitmap/bitmap.cpp:220-241 | the forward walk moves the region down by n |
| Bitmap.Decrement | src/bitmap/bitmap.cpp:162-174 | decrementing an unsigned 32-bit cursor wraps below zero |
| Bitmap.BackWalkAsWritten | src/bitmap/bitmap.cpp:162-174 | the cells the unsigned backward walk visits, as written, starting at its first cell |
| Bitmap.BackWalkLeavesRegion | src/bitmap/bitmap.cpp:162-174 | for a region starting at column 0, the unsigned walk as written visits cell 3, outside the region |
| Bitmap.BackWalkPastColumnZero | src/bitmap/bitmap.cpp:162-174 | from column 0 the unsigned walk as written steps to the previous row's last column |
| Bitmap.SwapBlocks | src/bitmap/bitmap.cpp:263-278 | the swap loop exchanges the two blocks |
| Bitmap.PasteBlock | src/bitmap/bitmap.cpp:335-350 | the copy loop pastes the other image at the coordinate |
| Bitmap.AppendPixels | src/bitmap/bitmap.cpp:430-436 | the pixel loop appends each pixel's blue, green, red and alpha bytes |
| BmpFile.MakeDibHeader | src/bitmap/bitmap.cpp:397-428 | the V4 header carries nine colour-space endpoints |
| BmpFile.HeaderBytes | src/bitmap/bitmap.cpp:388-395 | the file header is 14 bytes |
| BmpFile.DibBytes | src/bitmap/bitmap.cpp:397-428 | the V4 header is 72 bytes of fields plus four bytes per colour endpoint |
| BmpFile.PixelBytes | src/bitmap/bitmap.cpp:430-436 | one pixel is four bytes |
| BmpFile.PixelsBytes | src/bitmap/bitmap.cpp:430-436 | the pixel data is four bytes per pixel |
| BmpFile.HeadersBytes | src/bitmap/bitmap.cpp:282-320 | the two headers together are 122 bytes, the pixel data offset |
| BmpFile.SwappedFieldReads | src/bitmap/bitmap.cpp:388-428 | a byte-swapped field pushed in big-endian order reads back little-endian as the original value |
| BmpFile.PixelsBytesAt | src/bitmap/bitmap.cpp:430-436 | pixel k occupies bytes 4k to 4k + 3 as blue, green, red, alpha |
| BmpFile.HeaderLayout | src/bitmap/bitmap.cpp:388-395 | the file header reads as "BM", the file size, zero, and data offset 122 |
| BmpFile.DibLayout | src/bitmap/bitmap.cpp:397-428 | the V4 header reads as size 108, width, height, 1 plane, 32 bits per pixel, bitfields compression and the data size |
| BmpFile.FileLayout | src/bitmap/bitmap.cpp:282-320 | the file is the file header, then the V4 header, then the pixel data from byte 122 |
| TextureAtlas.LookupBelow | src/bitmap/texture_atlas.hpp:55 | a size below every shelf's size has no entries |
| TextureAtlas.AddToShelf | src/bitmap/texture_atlas.hpp:55 | filing an entry keeps the shelves in ascending size order |
| TextureAtlas.AddToShelfLookup | src/bitmap/texture_atlas.hpp:55 | filing appends the entry to the shelf of its size and leaves every other shelf as it was |
| TextureAtlas.AddToShelfPixels | src/bitmap/texture_atlas.hpp:55-56 | filing adds the entry's pixels to the stored pixels |
| TextureAtlas.AddToShelfFiled | src/bitmap/texture_atlas.hpp:55 | every entry stays on the shelf of its own size |
| TextureAtlas.StoredIdsHas | src/bitmap/texture_atlas.hpp:52-55 | the id of every stored image is among the stored ids |
| TextureAtlas.ShelfRegistered | src/bitmap/texture_atlas.hpp:52-56 | when the registered ids are the stored ones, every image on a shelf has a registered id |
| TextureAtlas.AddToShelfIds | src/bitmap/texture_atlas.hpp:54-55 | filing an image adds its id to the stored ids exactly once |
| TextureAtlas.StoreKeepsStocked | src/bitmap/texture_atlas.hpp:52-56 | storing an image under a new id keeps the used space equal to the stored pixels (wrapped) and within the atlas, every image filed by its size, and the registered ids exactly the stored images' ids, each stored once |
| TextureAtlas.Tallest | src/bitmap/texture_atlas.hpp:73-75 | the row height is at least the previous height and the picture's height |
| TextureAtlas.Corner | src/bitmap/texture_atlas.hpp:77-85 | a picture that does not fit on the row starts a new row at x 0 above the tallest so far; otherwise it goes at the pen and fits strictly |
| TextureAtlas.Stop | src/bitmap/texture_atlas.hpp:94-110 | the copy stops at a position inside the picture |
| TextureAtlas.StopIsFirstOutside | src/bitmap/texture_atlas.hpp:94-110 | the copy stops at the first picture position whose atlas position lies outside the atlas |
| TextureAtlas.PlacedAtStop | src/bitmap/texture_atlas.hpp:94-110 | the copy state at the stop is the placed image |
| TextureAtlas.PlacedWithinWidth | src/bitmap/texture_atlas.hpp:94-110 | a picture that fits is pasted whole |
| TextureAtlas.PlacedTooWide | src/bitmap/texture_atlas.hpp:94-110 | for a picture wider than the space left, only the part of its first row inside the atlas is copied and every other pixel keeps the background |
| TextureAtlas.CopyPicture | src/bitmap/texture_atlas.hpp:94-110 | the copy loop computes the placed image |
| TextureAtlas.PlaceEntriesSize | src/bitmap/texture_atlas.hpp:71-112 | placing a shelf's pictures keeps the atlas size |
| TextureAtlas.PlaceShelvesSize | src/bitmap/texture_atlas.hpp:69-113 | placing every shelf keeps the atlas size |
| TextureAtlas.PlacementKeepsApart | src/bitmap/texture_atlas.hpp:73-111 | a newly placed picture does not overlap any earlier one, and the row invariant holds afterwards |
| TextureAtlas.TextureAtlas.constructor | src/bitmap/texture_atlas.hpp:41-44 | a new atlas is empty with the given size and background |
| TextureAtlas.TextureAtlas.Push | src/bitmap/texture_atlas.hpp:47-61 | a push succeeds exactly when the wrapped used space plus the picture fits and the id is new; then the id is recorded and the picture filed by its size; otherwise nothing changes |
| TextureAtlas.TextureAtlas.Store | src/bitmap/texture_atlas.hpp:54-56 | storing records the id, files the picture by size and adds its size to the used space |
| TextureAtlas.TextureAtlas.GetElement | src/bitmap/texture_atlas.hpp:119-126 | an unknown id gives the zero element and a known one its record |
| TextureAtlas.TextureAtlas.Get | src/bitmap/texture_atlas.hpp:64-116 | the atlas image and the recorded elements are those of laying out every shelf in size order on a background image |
| TextureAtlas.TextureAtlas.LayOutShelf | src/bitmap/texture_atlas.hpp:71-112 | laying out one shelf computes PlaceEntries |
| TextureAtlas.TextureAtlas.PlaceOne | src/bitmap/texture_atlas.hpp:73-111 | placing one picture computes PlaceEntry |
| TextureAtlas.Advance | src/bitmap/texture_atlas.hpp:73-84 | the pen step computes Corner and the next pen |
| GlyphString.CodeUnit | src/bitmap_string.cpp:16 | a character in the basic plane keeps its code |
| GlyphString.MaxHeight | src/bitmap_string.cpp:28-33 | the string's height is the height of the tallest glyph, and 0 for no glyphs |
| GlyphString.OffsetWithin | src/bitmap_string.cpp:36-60 | each glyph ends before the next glyph's offset |
| GlyphString.PrefixHeight | src/bitmap_string.cpp:28-33 | a longer prefix is never shorter |
| GlyphString.AtCombinedLast | src/bitmap_string.cpp:39-61 | in the side-by-side image, a pixel covered by the last glyph comes from it; others come from the earlier glyphs |
| GlyphString.GlyphPixelLands | src/bitmap_string.cpp:39-61 | in the side-by-side image, each glyph pixel lands at the glyph's offset plus its own column, on the same row |
| GlyphString.UncoveredStaysWhite | src/bitmap_string.cpp:35-61 | in the side-by-side image, a pixel no glyph covers stays white |
| GlyphString.PenStart | src/bitmap_string.cpp:37-59 | the pen carried into a glyph never stands right of the glyph's offset |
| GlyphString.PenOnTrack | src/bitmap_string.cpp:37-59 | with no flat glyph (columns but no rows) before it, a glyph's pen starts at its offset |
| GlyphString.PasteByRows | src/bitmap_string.cpp:46-58 | copying the bottom row and then the rows above at the same column copies the whole glyph |
| GlyphString.DrawnSideBySide | src/bitmap_string.cpp:36-61 | with no flat glyph, the carried pen draws exactly the side-by-side image |
| GlyphString.FlatGlyphShiftsNext | src/bitmap_string.cpp:37-59 | a flat two-column glyph before a one-pixel glyph makes the pixel land in column 0, not at its offset 2 |
| GlyphString.DrawGlyph | src/bitmap_string.cpp:43-58 | one glyph's copy draws the next step of the carried-pen image and leaves the pen where the next glyph finds it |
| GlyphString.MeasureGlyphs | src/bitmap_string.cpp:26-33 | the width is the summed glyph widths (wrapped) and the height the tallest glyph |
| GlyphString.CombineBitmapGlyphs | src/bitmap_string.cpp:24-63 | the canvas is as wide as all glyphs and as tall as the tallest; it holds the glyphs drawn with the carried pen, which is the glyphs laid side by side on white when no glyph is flat |
| GlyphString.RenderGlyphs | src/bitmap_string.cpp:14-18 | one glyph is rendered per character, outline and inside, from its 16-bit code |
| GlyphString.GlyphsOf | src/bitmap_string.cpp:14-18 | one glyph per character |
| GlyphString.BitmapString.constructor | src/bitmap_string.cpp:5-7 | an empty string has an empty bitmap |
| GlyphString.BitmapString.Rendered | src/bitmap_string.cpp:9-22 | the bitmap of a string is its rendered glyphs drawn with the carried pen, laid side by side when no glyph is flat |
| InputParser.Parser.Find | src/input_parser.cpp:15 | find returns the first position holding the token, or the end |
| InputParser.Parser.TokenExists | src/input_parser.cpp:8-11 | a token exists exactly when it is one of the tokens |
| InputParser.Parser.GetTokenValue | src/input_parser.cpp:13-22 | a missing token gives the empty string; a non-empty value is the token right after an occurrence |
| InputParser.FromArgs | src/input_parser.cpp:3-6 | the tokens are the first argc arguments in order |
| InputParser.ValueFollowsFirstOccurrence | src/input_parser.cpp:13-22 | the value of a token is the token right after its first occurrence |
| InputParser.LastTokenHasNoValue | src/input_parser.cpp:13-22 | a token occurring only last has no value |
| InputParser.ExampleCommandLine | src/input_parser.cpp:13-22 | on sample command lines, the value after `-o`, the first `-i` winning, and no value for a trailing token |

## Left out

- File I/O: `vector_reader::load` and the path constructors read a file; the model takes the file bytes as a parameter.
- Reads past the end of the bytes are undefined behaviour in the source; the model returns `Err(OutOfBounds)` and does not advance the cursor.
- `LOG` and `debug_break` messages are not modelled.
- The default-insert side effect of `m_table_records["tag"]` on a missing tag is not modelled; only the zero record it yields is.
- Floating point: `convert_to_pixel`, `convert_to_f26`, the curve sampling `calculate_over_t` and the point size and DPI scaling. `Outline.Classify` takes the 26.6 conversion as a function parameter and the sampled rows as given values.
- The bounding box, advance and image size of a rasterized glyph are computed in floating point and are left out; the rasterizer takes the target image as a parameter.
- Rasterizer.RasterizeOutline: the row sort by vectorial coordinate is a parameter assumed only to reorder a row; the order it produces is not modelled.
- Rasterizer.RasterizeOutline: requires every stroked and filled cell to lie inside the image; the source writes outside the image there (undefined behaviour).
- InteriorFill.CheckForAndFillInteriorRange: the `x += 64` span loop is assumed not to wrap past 2^32, and the int difference of two 26.6 values is computed unbounded.
- InteriorFill.GetAdjacentSegmentId: the source's guard `id - 1 > 0` skips segment 0 as a predecessor; the model keeps that guard as written.
- InteriorFill.FillRow: the source's extra `size != 1` check is redundant, since a row of one crossing already has no pair (InteriorFill.LoneCrossingPaintsNothing); `prev_xstart` is written but never read and is left out.
- Nested composite glyphs are not followed: a component that is itself composite is read as the source reads it, which fails past the end of the bytes.
- Faces.FontFace.Load: requires a face that has never been loaded; loading twice into the same face is not modelled.
- Bitmap.BitmapImage.Crop, Bitmap.BitmapImage.TranslateRegion: arguments are restricted to values below 2^31 and sums that do not wrap, where the source's signed and unsigned conversions would wrap.
- Bitmap.BitmapImage.TranslateRegion: reversed corners are accepted and refused through the wrapped width and height, as in the source (Bitmap.RegionRefused, Bitmap.ReversedCornersRefused); on an image 2^31 or more wide or tall a reversed region can pass that test, and that case is excluded, because the source then moves cells outside the image.
- Bitmap.BitmapImage.Extrude: requires the new width `width + fromRight + fromLeft`, the new height `height + fromTop + fromBottom` and the new pixel count to stay below 2^32; the source adds and multiplies these in `uint32_t`, and after a wrap it writes past the end of the new pixel vector.
- Bitmap.BitmapImage.SwapRegions: requires `o1.x + sw`, `o1.y + sh`, `o2.x + sw` and `o2.y + sh` to stay below 2^32; the source's wrapped sums pass its edge test and it then writes outside the image.
- Bitmap.BitmapImage.InsertOtherBitmapAtCoordinate: requires `coord.x + other.width` and `coord.y + other.height` to stay below 2^32; the source's wrapped sums pass its edge test and it then writes outside the image.
- GlyphString.CombineBitmapGlyphs, GlyphString.BitmapString.Rendered: require the summed glyph width to stay below 2^32 and the canvas area (width times the tallest glyph) to stay below 2^32; the source wraps the canvas width and area in `uint32_t` and then writes outside the image.
- Bitmap.BitmapImage.SwapRegions, Bitmap.BitmapImage.InsertOtherBitmapAtCoordinate: the source's edge tests are strict, so a block touching the last row or column is refused; modelled as written (Bitmap.SwapRefusesDisjoint shows a refused disjoint pair).
- TextureAtlas.TextureAtlas.Get: the elements are recorded as integer corners; the source divides the corners by the picture size in floating point. Iteration over the shelves follows the ascending order of `std::map`.
- TextureAtlas.TextureAtlas.Get: modelled as written: a row wraps when the pen reaches the atlas width or the picture would reach it (`>=`), the copy stops (`break`) at the first position outside the atlas, and the row height is the largest height seen so far, never reset.
- TextureAtlas.TextureAtlas.Push: the width * height of the atlas is assumed below 2^32; the used-space sum wraps as in the source.
- The default texture atlas constructor (no size) is not modelled.
- Util.I32At, Util.VectorReader.GetInt32, Util.ReadsDecodeTheirBytes: the signed 32-bit read is modelled with the corrected two's-complement join (Util.JoinInt32), not with `join_bytes_signed` as written, which sign-extends each byte (see Findings); for bytes such as 00 00 00 80 the model returns the intended 128 where the source returns -128; the two agree whenever the three bytes after the first are below 0x80 (Util.JoinBytesSigned32).
- Bitmap.TranslateRight, Bitmap.TranslateUp, Bitmap.BitmapImage.TranslateRegion, Bitmap.Translated: the rightward and upward moves are computed with signed cursors that stop at the region's edge, which is the corrected walk; the source's `uint32_t` backward walk wraps below column 0 and leaves the region (see Findings, Bitmap.BackWalkLeavesRegion), and that wrapped walk is not what these members compute.
- GlyphString.BitmapString.Rendered: the glyph rendering `get_glyph_bitmap` is a function parameter; the point size only feeds that parameter.

## Findings

| source | as written | input that shows it | evidently intended | confidence | as-written member | corrected member |
|---|---|---|---|---|---|---|
| src/util.cpp:77-91 | `join_bytes_signed` ORs sign-extended `char` bytes, so a byte at or above 0x80 in the last position spreads ones over the whole result | bytes 00 00 00 80 join to -128 | the two's-complement value 128 of the four big-endian bytes, the inverse of `split_bytes(int32_t)` | not executed | Util.JoinBytesSigned32Differs | Util.SplitJoinInt32 |
| src/bitmap_string.cpp:37-59 | `image_pen_x` is reset to the glyph's offset only on a row change, never when a glyph starts; a glyph with columns but no rows copies nothing, so the next glyph's bottom row starts where the pen was left | glyphs of 2 x 0 and 1 x 1 pixels on a 3 x 1 canvas: the pixel lands at column 0, and column 2 stays white | every glyph is copied at its offset, the glyphs laid side by side | not executed | GlyphString.FlatGlyphShiftsNext | GlyphString.DrawnSideBySide |
| src/bitmap/bitmap.cpp:162-174 | the right and up translations walk the region backwards with a `uint32_t` cursor, which wraps below zero at column 0 instead of stopping | a 2x2 region at the origin of a 4-wide image, walked from (1, 1): the cursor visits cell 3, outside the region | the walk visits exactly the region's cells, moving the region and leaving the rest | not executed | Bitmap.BackWalkLeavesRegion | Bitmap.TranslatedRightThenLeft |
