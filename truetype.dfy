/** The font file decoder and the glyph loader as functions of the file bytes.

    Every function here follows the order of reads of the corresponding member
    of `font_face` (font_face.cpp); the class in faces.dfy performs the same
    reads through the sequential reader and is proved equal to these
    functions.  A read past the end of the bytes, which the source does not
    check, is `Err(OutOfBounds)`; an index past the end of `loca` or `hmtx` is
    `Err(IndexOutOfRange)`. */
module TrueType {
  import opened Wrappers
  import opened Util
  import opened FontTypes

  const SFNT_VERSION: u32 := 0x0001_0000
  const MAXP_VERSION: u32 := 0x0001_0000

  /** The table tags the decoder looks up, as big-endian numbers of their
      four characters. */
  const TAG_MAXP: u32 := 0x6D61_7870  // "maxp"
  const TAG_HHEA: u32 := 0x6868_6561  // "hhea"
  const TAG_HEAD: u32 := 0x6865_6164  // "head"
  const TAG_HMTX: u32 := 0x686D_7478  // "hmtx"
  const TAG_LOCA: u32 := 0x6C6F_6361  // "loca"
  const TAG_CMAP: u32 := 0x636D_6170  // "cmap"
  const TAG_GLYF: u32 := 0x676C_7966  // "glyf"

  /** Everything `m_parse_truetype_file` stores.  The table map is keyed by
      the tag read as a big-endian number: the same four bytes that make up
      the source's string key, so the two keyings correspond one to one. */
  datatype Font = Font(
    tables: map<u32, TableRecord>,
    numGlyphs: u16,
    unitsPerEm: u16,
    hmetrics: seq<LongHorMetric>,
    loca: seq<u32>,
    cmapHeader: CmapHeader,
    cmap: CmapFormat4,
    segCount: u16,
    idRangeOffsetPos: nat)

  /** The four segment arrays all have `segCount` entries. */
  predicate WellFormed(f: Font) {
    |f.cmap.endCode| == f.segCount as int && |f.cmap.startCode| == f.segCount as int
    && |f.cmap.idDelta| == f.segCount as int && |f.cmap.idRangeOffset| == f.segCount as int
  }

  /** `m_table_records[tag]`: the record, or the all-zero record that the
      lookup default-inserts for a missing tag. */
  function Record(tables: map<u32, TableRecord>, tag: u32): (r: TableRecord)
    ensures tag !in tables ==> r.offset == 0 && r.length == 0
  {
    if tag in tables then tables[tag] else ZeroRecord
  }

  // ---------------------------------------------------------------------
  // Table directory

  predicate Printable(c: u8) {
    0x20 <= c <= 0x7E
  }

  /** All four bytes of a tag are printable ASCII. */
  predicate PrintableTag(tag: u32) {
    var s := SplitBytes32(tag);
    Printable(s[0]) && Printable(s[1]) && Printable(s[2]) && Printable(s[3])
  }

  /** Four printable bytes read as a tag give a printable tag. */
  lemma PrintableBytesTag(b: seq<u8>, p: nat)
    requires p + 4 <= |b|
    requires Printable(b[p]) && Printable(b[p + 1]) && Printable(b[p + 2]) && Printable(b[p + 3])
    ensures PrintableTag(U32At(b, p).value)
  {
    ReadsDecodeTheirBytes(b, p);
    var s := SplitBytes32(U32At(b, p).value);
    assert s[0] == b[p] && s[1] == b[p + 1] && s[2] == b[p + 2] && s[3] == b[p + 3];
  }

  /** The directory loop from byte `p` with `remaining` records left: each
      record needs four printable tag bytes, and a tag already present keeps
      its first record (`unordered_map::insert`). */
  function DirectoryFrom(b: seq<u8>, p: nat, remaining: nat, acc: map<u32, TableRecord>)
    : (r: Result<map<u32, TableRecord>>)
    decreases remaining
  {
    if remaining == 0 then Ok(acc)
    else if p + 4 > |b| then Err(OutOfBounds)
    else if !(Printable(b[p]) && Printable(b[p + 1]) && Printable(b[p + 2]) && Printable(b[p + 3])) then
      Err(BadTableTag)
    else
      var tag :- U32At(b, p);
      var checksum :- U32At(b, p + 4);
      var offset :- U32At(b, p + 8);
      var length :- U32At(b, p + 12);
      DirectoryFrom(b, p + 16, remaining - 1,
        if tag in acc then acc else acc[tag := TableRecord(tag, checksum, offset, length)])
  }

  /** The first record of a tag wins: what the directory already holds is
      never replaced. */
  lemma {:induction false} DirectoryKeepsFirst(b: seq<u8>, p: nat, remaining: nat, acc: map<u32, TableRecord>)
    requires DirectoryFrom(b, p, remaining, acc).Ok?
    decreases remaining
    ensures var m := DirectoryFrom(b, p, remaining, acc).value;
            forall k :: k in acc ==> k in m && m[k] == acc[k]
  {
    if remaining > 0 {
      var tag := U32At(b, p).value;
      var rec := TableRecord(tag, U32At(b, p + 4).value, U32At(b, p + 8).value, U32At(b, p + 12).value);
      var next := if tag in acc then acc else acc[tag := rec];
      DirectoryKeepsFirst(b, p + 16, remaining - 1, next);
    }
  }

  /** Every key of the directory is a tag of four printable characters and
      is the tag of the record stored under it. */
  lemma {:induction false} DirectoryTagsPrintable(b: seq<u8>, p: nat, remaining: nat, acc: map<u32, TableRecord>)
    requires DirectoryFrom(b, p, remaining, acc).Ok?
    requires forall k :: k in acc ==> PrintableTag(k) && acc[k].tag == k
    decreases remaining
    ensures var m := DirectoryFrom(b, p, remaining, acc).value;
            forall k :: k in m ==> PrintableTag(k) && m[k].tag == k
  {
    if remaining > 0 {
      var tag := U32At(b, p).value;
      PrintableBytesTag(b, p);
      var rec := TableRecord(tag, U32At(b, p + 4).value, U32At(b, p + 8).value, U32At(b, p + 12).value);
      var next := if tag in acc then acc else acc[tag := rec];
      DirectoryTagsPrintable(b, p + 16, remaining - 1, next);
    }
  }

  // ---------------------------------------------------------------------
  // Arrays read back to back

  /** `n` big-endian `uint16` values from byte `p` on, appended to `acc`. */
  function U16ArrayFrom(b: seq<u8>, p: nat, n: nat, acc: seq<u16>): (r: Result<seq<u16>>)
    decreases n
    ensures r.Ok? ==> |r.value| == |acc| + n && r.value[..|acc|] == acc
    ensures r.Ok? ==> forall k :: |acc| <= k < |r.value| ==> U16At(b, p + 2 * (k - |acc|)) == Ok(r.value[k])
    ensures r.Ok? <==> n == 0 || p + 2 * n <= |b|
    ensures r.Err? ==> r.error == OutOfBounds
  {
    if n == 0 then Ok(acc)
    else
      var v :- U16At(b, p);
      U16ArrayFrom(b, p + 2, n - 1, acc + [v])
  }

  /** `n` big-endian `int16` values from byte `p` on, appended to `acc`. */
  function I16ArrayFrom(b: seq<u8>, p: nat, n: nat, acc: seq<i16>): (r: Result<seq<i16>>)
    decreases n
    ensures r.Ok? ==> |r.value| == |acc| + n && r.value[..|acc|] == acc
    ensures r.Ok? ==> forall k :: |acc| <= k < |r.value| ==> I16At(b, p + 2 * (k - |acc|)) == Ok(r.value[k])
    ensures r.Ok? <==> n == 0 || p + 2 * n <= |b|
    ensures r.Err? ==> r.error == OutOfBounds
  {
    if n == 0 then Ok(acc)
    else
      var v :- I16At(b, p);
      I16ArrayFrom(b, p + 2, n - 1, acc + [v])
  }

  /** `n` bytes from `p` on, appended to `acc`. */
  function BytesFrom(b: seq<u8>, p: nat, n: nat, acc: seq<u8>): (r: Result<seq<u8>>)
    decreases n
    ensures r.Ok? ==> |r.value| == |acc| + n && r.value[..|acc|] == acc
    ensures r.Ok? ==> forall k :: |acc| <= k < |r.value| ==> U8At(b, p + (k - |acc|)) == Ok(r.value[k])
    ensures r.Ok? <==> n == 0 || p + n <= |b|
  {
    if n == 0 then Ok(acc)
    else
      var v :- U8At(b, p);
      BytesFrom(b, p + 1, n - 1, acc + [v])
  }

  // ---------------------------------------------------------------------
  // hmtx and loca

  /** One long horizontal metric record at byte `p`. */
  function MetricAt(b: seq<u8>, p: nat): (r: Result<LongHorMetric>)
    ensures r.Ok? <==> p + 4 <= |b|
    ensures r.Ok? ==> U16At(b, p) == Ok(r.value.advanceWidth) && I16At(b, p + 2) == Ok(r.value.lsb)
  {
    var aw :- U16At(b, p);
    var lsb :- I16At(b, p + 2);
    Ok(LongHorMetric(aw, lsb))
  }

  /** `n` metric records from byte `p` on, appended to `acc`. */
  function MetricsFrom(b: seq<u8>, p: nat, n: nat, acc: seq<LongHorMetric>): (r: Result<seq<LongHorMetric>>)
    decreases n
    ensures r.Ok? ==> |r.value| == |acc| + n && r.value[..|acc|] == acc
    ensures r.Ok? ==> forall k :: |acc| <= k < |r.value| ==> MetricAt(b, p + 4 * (k - |acc|)) == Ok(r.value[k])
    ensures r.Ok? <==> n == 0 || p + 4 * n <= |b|
    ensures r.Err? ==> r.error == OutOfBounds
  {
    if n == 0 then Ok(acc)
    else
      var m :- MetricAt(b, p);
      MetricsFrom(b, p + 4, n - 1, acc + [m])
  }

  /** The hmtx array: `numberOfHMetrics` records read from the table, then,
      when there are at least as many glyphs, one copy of the last record for
      every remaining glyph. With no record to copy the source indexes
      before the start of the array; that is `NoHorizontalMetrics` here. */
  function Hmtx(b: seq<u8>, p: nat, numGlyphs: u16, numHMetrics: u16): (r: Result<seq<LongHorMetric>>)
    ensures r.Ok? ==> |r.value| == if numGlyphs < numHMetrics then numHMetrics as int else numGlyphs as int
    ensures r.Ok? ==> forall k :: 0 <= k < numHMetrics ==> MetricAt(b, p + 4 * k) == Ok(r.value[k])
    ensures r.Ok? && numHMetrics > 0 ==> forall k :: numHMetrics <= k < |r.value| ==> r.value[k] == r.value[numHMetrics - 1]
    ensures r == Err(NoHorizontalMetrics) <==> numHMetrics == 0 < numGlyphs
  {
    var long :- MetricsFrom(b, p, numHMetrics as nat, []);
    if numGlyphs < numHMetrics then Ok(long)
    else if numHMetrics == 0 then
      if numGlyphs == 0 then Ok([]) else Err(NoHorizontalMetrics)
    else Ok(long + seq(numGlyphs - numHMetrics, _ => long[numHMetrics - 1]))
  }

  /** `n` short loca offsets (stored halved) from `p` on, doubled. */
  function LocaShortFrom(b: seq<u8>, p: nat, n: nat, acc: seq<u32>): (r: Result<seq<u32>>)
    decreases n
    ensures r.Ok? ==> |r.value| == |acc| + n && r.value[..|acc|] == acc
    ensures r.Ok? ==> forall k :: |acc| <= k < |r.value| ==>
              U16At(b, p + 2 * (k - |acc|)) == Ok(r.value[k] / 2) && r.value[k] % 2 == 0
  {
    if n == 0 then Ok(acc)
    else
      var v :- U16At(b, p);
      LocaShortFrom(b, p + 2, n - 1, acc + [2 * v])
  }

  /** `n` long loca offsets from `p` on. */
  function LocaLongFrom(b: seq<u8>, p: nat, n: nat, acc: seq<u32>): (r: Result<seq<u32>>)
    decreases n
    ensures r.Ok? ==> |r.value| == |acc| + n && r.value[..|acc|] == acc
    ensures r.Ok? ==> forall k :: |acc| <= k < |r.value| ==> U32At(b, p + 4 * (k - |acc|)) == Ok(r.value[k])
  {
    if n == 0 then Ok(acc)
    else
      var v :- U32At(b, p);
      LocaLongFrom(b, p + 4, n - 1, acc + [v])
  }

  /** The loca array: `numGlyphs + 1` offsets in the format chosen by
      `indexToLocFormat`; any other format is rejected. */
  function Loca(b: seq<u8>, p: nat, numGlyphs: u16, indexToLocFormat: i16): (r: Result<seq<u32>>)
    ensures r.Ok? ==> |r.value| == numGlyphs as int + 1
    ensures r.Ok? ==> indexToLocFormat == 0 || indexToLocFormat == 1
    ensures indexToLocFormat != 0 && indexToLocFormat != 1 ==> r == Err(BadIndexToLocFormat)
  {
    if indexToLocFormat == 0 then LocaShortFrom(b, p, numGlyphs as nat + 1, [])
    else if indexToLocFormat == 1 then LocaLongFrom(b, p, numGlyphs as nat + 1, [])
    else Err(BadIndexToLocFormat)
  }

  // ---------------------------------------------------------------------
  // cmap

  /** One encoding record at byte `p`. */
  function EncodingAt(b: seq<u8>, p: nat): (r: Result<CmapEncoding>)
    ensures r.Ok? <==> p + 8 <= |b|
    ensures r.Ok? ==> U16At(b, p) == Ok(r.value.platformId) && U16At(b, p + 2) == Ok(r.value.encodingId)
                      && U32At(b, p + 4) == Ok(r.value.offset)
  {
    var platform :- U16At(b, p);
    var encoding :- U16At(b, p + 2);
    var offset :- U32At(b, p + 4);
    Ok(CmapEncoding(platform, encoding, offset))
  }

  /** `n` encoding records from byte `p` on, appended to `acc`. */
  function EncodingsFrom(b: seq<u8>, p: nat, n: nat, acc: seq<CmapEncoding>): (r: Result<seq<CmapEncoding>>)
    decreases n
    ensures r.Ok? ==> |r.value| == |acc| + n && r.value[..|acc|] == acc
    ensures r.Ok? ==> forall k :: |acc| <= k < |r.value| ==> EncodingAt(b, p + 8 * (k - |acc|)) == Ok(r.value[k])
  {
    if n == 0 then Ok(acc)
    else
      var e :- EncodingAt(b, p);
      EncodingsFrom(b, p + 8, n - 1, acc + [e])
  }

  /** A decoded format 4 subtable together with the segment count and the
      file position of its idRangeOffset array. */
  datatype Bmp = Bmp(format: CmapFormat4, segCount: u16, idRangeOffsetPos: nat)

  /** The format 4 subtable at byte `q`: the format, length and language
      fields are skipped unread, then segCountX2, three skipped search
      fields, endCode, a reserved pad, startCode, idDelta and idRangeOffset. */
  function Format4At(b: seq<u8>, q: nat): (r: Result<Bmp>)
    ensures r.Ok? ==> BmpShape(r.value)
  {
    var x2 :- U16At(b, q + 6);
    var s := x2 / 2;
    var arrays :- SegmentArrays(b, q + 14, s);
    Ok(Bmp(CmapFormat4(x2, arrays.0, arrays.1, arrays.2, arrays.3), s, q + 16 + 6 * s))
  }

  /** The four segment arrays of `s` entries from `p` on: endCode, the
      reserved pad, startCode, idDelta and idRangeOffset. */
  function SegmentArrays(b: seq<u8>, p: nat, s: nat): (r: Result<(seq<u16>, seq<u16>, seq<i16>, seq<u16>)>)
    ensures r.Ok? ==> |r.value.0| == s && |r.value.1| == s && |r.value.2| == s && |r.value.3| == s
  {
    var ends :- U16ArrayFrom(b, p, s, []);
    var starts :- U16ArrayFrom(b, p + 2 + 2 * s, s, []);
    var deltas :- I16ArrayFrom(b, p + 2 + 4 * s, s, []);
    var ranges :- U16ArrayFrom(b, p + 2 + 6 * s, s, []);
    Ok((ends, starts, deltas, ranges))
  }

  /** Where the fields of a decoded subtable come from: segCountX2 at
      offset 6, then the four arrays of segCountX2 / 2 entries each, with
      the reserved pad between endCode and startCode; idRangeOffsetPos is
      the file position of the idRangeOffset array. */
  lemma Format4AtReads(b: seq<u8>, q: nat)
    requires Format4At(b, q).Ok?
    ensures var r := Format4At(b, q).value; var s := r.segCount as int;
            U16At(b, q + 6) == Ok(r.format.segCountX2) && s == r.format.segCountX2 / 2
            && r.idRangeOffsetPos == q + 16 + 6 * s
            && (forall k :: 0 <= k < s ==> U16At(b, q + 14 + 2 * k) == Ok(r.format.endCode[k]))
            && (forall k :: 0 <= k < s ==> U16At(b, q + 16 + 2 * s + 2 * k) == Ok(r.format.startCode[k]))
            && (forall k :: 0 <= k < s ==> I16At(b, q + 16 + 4 * s + 2 * k) == Ok(r.format.idDelta[k]))
            && (forall k :: 0 <= k < s ==> U16At(b, q + 16 + 6 * s + 2 * k) == Ok(r.format.idRangeOffset[k]))
  {
  }

  /** The four segment arrays of a decoded subtable have `segCount` entries. */
  predicate BmpShape(m: Bmp) {
    |m.format.endCode| == m.segCount as int && |m.format.startCode| == m.segCount as int
    && |m.format.idDelta| == m.segCount as int && |m.format.idRangeOffset| == m.segCount as int
  }

  predicate IsUnicodeBmp(e: CmapEncoding) {
    e.platformId == 3 && e.encodingId == 1
  }

  /** The loop over the encoding records from index `i`: every platform 3 /
      encoding 1 record is decoded and replaces the one before it. */
  function LastBmpFrom(b: seq<u8>, cmapOffset: nat, recs: seq<CmapEncoding>, i: nat, acc: Option<Bmp>)
    : (r: Result<Option<Bmp>>)
    decreases |recs| - i
    ensures r.Ok? && (acc.Some? ==> BmpShape(acc.value)) && r.value.Some? ==> BmpShape(r.value.value)
  {
    if i >= |recs| then Ok(acc)
    else if IsUnicodeBmp(recs[i]) then
      var f :- Format4At(b, cmapOffset + recs[i].offset as nat);
      LastBmpFrom(b, cmapOffset, recs, i + 1, Some(f))
    else LastBmpFrom(b, cmapOffset, recs, i + 1, acc)
  }

  /** Record `k` is the last platform 3 / encoding 1 record of `recs`. */
  predicate LastBmpRecord(recs: seq<CmapEncoding>, k: nat) {
    k < |recs| && IsUnicodeBmp(recs[k]) && forall j :: k < j < |recs| ==> !IsUnicodeBmp(recs[j])
  }

  /** The last platform 3 / encoding 1 record decides the subtable; with no
      such record the result is the starting value. */
  lemma {:induction false} LastBmpIsLast(b: seq<u8>, cmapOffset: nat, recs: seq<CmapEncoding>, i: nat, acc: Option<Bmp>)
    requires LastBmpFrom(b, cmapOffset, recs, i, acc).Ok?
    ensures var r := LastBmpFrom(b, cmapOffset, recs, i, acc).value;
            ((forall k :: i <= k < |recs| ==> !IsUnicodeBmp(recs[k])) ==> r == acc)
            && (forall k: nat :: i <= k && LastBmpRecord(recs, k)
                  ==> r.Some? && Format4At(b, cmapOffset + recs[k].offset as nat) == Ok(r.value))
    decreases |recs| - i
  {
    if i < |recs| {
      var r := LastBmpFrom(b, cmapOffset, recs, i, acc).value;
      if IsUnicodeBmp(recs[i]) {
        var f := Format4At(b, cmapOffset + recs[i].offset as nat).value;
        assert LastBmpFrom(b, cmapOffset, recs, i, acc) == LastBmpFrom(b, cmapOffset, recs, i + 1, Some(f));
        LastBmpIsLast(b, cmapOffset, recs, i + 1, Some(f));
        forall k: nat | i <= k && LastBmpRecord(recs, k)
          ensures r.Some? && Format4At(b, cmapOffset + recs[k].offset as nat) == Ok(r.value)
        {
          if k == i {
            assert forall j :: i + 1 <= j < |recs| ==> !IsUnicodeBmp(recs[j]);
          }
        }
      } else {
        LastBmpIsLast(b, cmapOffset, recs, i + 1, acc);
      }
    }
  }

  // ---------------------------------------------------------------------
  // The whole file

  /** The offset table and the table directory: the sfnt version must be
      1.0; the search fields are read and ignored. */
  function OffsetTable(b: seq<u8>): (r: Result<map<u32, TableRecord>>)
    ensures r.Ok? ==> U32At(b, 0) == Ok(SFNT_VERSION)
    ensures U32At(b, 0).Ok? && U32At(b, 0).value != SFNT_VERSION ==> r == Err(BadSfntVersion)
  {
    var sfnt :- U32At(b, 0);
    if sfnt != SFNT_VERSION then Err(BadSfntVersion) else
    var numTables :- U16At(b, 4);
    var searchRange :- U16At(b, 6);
    var entrySelector :- U16At(b, 8);
    var rangeShift :- U16At(b, 10);
    var tables :- DirectoryFrom(b, 12, numTables as nat, map[]);
    Ok(tables)
  }

  /** Every key of an accepted directory is a tag of four printable
      characters, stored with its own record. */
  lemma OffsetTableTags(b: seq<u8>)
    requires OffsetTable(b).Ok?
    ensures forall k :: k in OffsetTable(b).value ==> PrintableTag(k) && OffsetTable(b).value[k].tag == k
  {
    DirectoryTagsPrintable(b, 12, U16At(b, 4).value as nat, map[]);
  }

  /** What the maxp, hhea, head, hmtx and loca tables contribute. */
  datatype Metrics = Metrics(numGlyphs: u16, unitsPerEm: u16, hmetrics: seq<LongHorMetric>, loca: seq<u32>)

  function MaxpOffset(tables: map<u32, TableRecord>): nat { Record(tables, TAG_MAXP).offset as nat }
  function HheaOffset(tables: map<u32, TableRecord>): nat { Record(tables, TAG_HHEA).offset as nat }
  function HeadOffset(tables: map<u32, TableRecord>): nat { Record(tables, TAG_HEAD).offset as nat }

  /** The fixed-offset fields of maxp, hhea and head the decoder keeps or
      needs for hmtx and loca. */
  datatype Fields = Fields(numGlyphs: u16, numHMetrics: u16, unitsPerEm: u16, indexToLocFormat: i16)

  /** numGlyphs from maxp, whose version must be 1.0; maxComponentDepth
      is read and dropped. */
  function MaxpNumGlyphs(b: seq<u8>, tables: map<u32, TableRecord>): (r: Result<u16>)
    ensures r.Ok? ==> U32At(b, MaxpOffset(tables)) == Ok(MAXP_VERSION) && U16At(b, MaxpOffset(tables) + 4) == r
    ensures U32At(b, MaxpOffset(tables)).Ok? && U32At(b, MaxpOffset(tables)).value != MAXP_VERSION ==> r == Err(BadMaxpVersion)
  {
    var maxpVersion :- U32At(b, MaxpOffset(tables));
    if maxpVersion != MAXP_VERSION then Err(BadMaxpVersion) else
    var numGlyphs :- U16At(b, MaxpOffset(tables) + 4);
    var maxComponentDepth :- U16At(b, MaxpOffset(tables) + 30);
    Ok(numGlyphs)
  }

  /** numGlyphs from maxp, numberOfHMetrics from hhea, unitsPerEm and
      indexToLocFormat from head. */
  function MetricsFields(b: seq<u8>, tables: map<u32, TableRecord>): (r: Result<Fields>)
    ensures r.Ok? ==> U32At(b, MaxpOffset(tables)) == Ok(MAXP_VERSION)
    ensures U32At(b, MaxpOffset(tables)).Ok? && U32At(b, MaxpOffset(tables)).value != MAXP_VERSION ==> r == Err(BadMaxpVersion)
    ensures r.Ok? ==> U16At(b, MaxpOffset(tables) + 4) == Ok(r.value.numGlyphs)
                      && U16At(b, HheaOffset(tables) + 34) == Ok(r.value.numHMetrics)
                      && U16At(b, HeadOffset(tables) + 18) == Ok(r.value.unitsPerEm)
                      && I16At(b, HeadOffset(tables) + 50) == Ok(r.value.indexToLocFormat)
  {
    var numGlyphs :- MaxpNumGlyphs(b, tables);
    HheaHeadFields(b, tables, numGlyphs)
  }

  /** numberOfHMetrics from hhea, then unitsPerEm and indexToLocFormat from
      head, with the glyph count already read. */
  function HheaHeadFields(b: seq<u8>, tables: map<u32, TableRecord>, numGlyphs: u16): (r: Result<Fields>)
  {
    var numHMetrics :- U16At(b, HheaOffset(tables) + 34);
    var unitsPerEm :- U16At(b, HeadOffset(tables) + 18);
    var indexToLocFormat :- I16At(b, HeadOffset(tables) + 50);
    Ok(Fields(numGlyphs, numHMetrics, unitsPerEm, indexToLocFormat))
  }

  /** The fields, then the hmtx and loca arrays. */
  function ParseMetrics(b: seq<u8>, tables: map<u32, TableRecord>): (r: Result<Metrics>)
    ensures r.Ok? ==> MetricsFields(b, tables).Ok?
    ensures MetricsFields(b, tables).Err? ==> r == Err(MetricsFields(b, tables).error)
    ensures r.Ok? ==> var h := MetricsFields(b, tables).value;
              h.numGlyphs == r.value.numGlyphs && h.unitsPerEm == r.value.unitsPerEm
              && 0 <= h.indexToLocFormat <= 1
              && |r.value.loca| == r.value.numGlyphs as int + 1
    ensures r.Ok? ==> var h := MetricsFields(b, tables).value;
              Hmtx(b, Record(tables, TAG_HMTX).offset as nat, h.numGlyphs, h.numHMetrics) == Ok(r.value.hmetrics)
  {
    var h :- MetricsFields(b, tables);
    var hmetrics :- Hmtx(b, Record(tables, TAG_HMTX).offset as nat, h.numGlyphs, h.numHMetrics);
    var loca :- Loca(b, Record(tables, TAG_LOCA).offset as nat, h.numGlyphs, h.indexToLocFormat);
    Ok(Metrics(h.numGlyphs, h.unitsPerEm, hmetrics, loca))
  }

  /** The cmap header: version, the number of encoding records, and the
      records. */
  function CmapHeaderAt(b: seq<u8>, cmap: nat): (r: Result<CmapHeader>)
    ensures r.Ok? ==> |r.value.encodingRecords| == r.value.numTables as int
    ensures r.Ok? ==> U16At(b, cmap + 2) == Ok(r.value.numTables)
                      && EncodingsFrom(b, cmap + 4, r.value.numTables as nat, []) == Ok(r.value.encodingRecords)
  {
    var version :- U16At(b, cmap);
    var numSubtables :- U16At(b, cmap + 2);
    var records :- EncodingsFrom(b, cmap + 4, numSubtables as nat, []);
    Ok(CmapHeader(version, numSubtables, records))
  }

  /** The cmap header, its encoding records and the format 4 subtable of
      the last platform 3 / encoding 1 record; without such a record the
      font is rejected. */
  function ParseCmap(b: seq<u8>, cmap: nat): (r: Result<(CmapHeader, Bmp)>)
    ensures r.Ok? ==> |r.value.0.encodingRecords| == r.value.0.numTables as int
    ensures r.Ok? ==> BmpShape(r.value.1)
  {
    var header :- CmapHeaderAt(b, cmap);
    var bmp :- LastBmpFrom(b, cmap, header.encodingRecords, 0, None);
    if bmp.None? then Err(NoUnicodeBmpSubtable) else
    Ok((header, bmp.value))
  }

  /** A cmap the decoder accepts has a platform 3 / encoding 1 record, and
      the subtable it keeps is the one of the last such record. */
  lemma ParseCmapTakesLastBmp(b: seq<u8>, cmap: nat)
    requires ParseCmap(b, cmap).Ok?
    ensures var r := ParseCmap(b, cmap).value; var recs := r.0.encodingRecords;
            (exists k :: 0 <= k < |recs| && IsUnicodeBmp(recs[k]))
            && forall k: nat :: LastBmpRecord(recs, k) ==> Format4At(b, cmap + recs[k].offset as nat) == Ok(r.1)
  {
    var header := CmapHeaderAt(b, cmap).value;
    var l := LastBmpFrom(b, cmap, header.encodingRecords, 0, None);
    assert l.Ok? && l.value.Some? && ParseCmap(b, cmap).value == (header, l.value.value);
    LastBmpFound(b, cmap, header.encodingRecords);
  }

  /** A record loop that finds a subtable has met a platform 3 / encoding 1
      record, and keeps the subtable of the last one. */
  lemma LastBmpFound(b: seq<u8>, cmap: nat, recs: seq<CmapEncoding>)
    requires LastBmpFrom(b, cmap, recs, 0, None).Ok? && LastBmpFrom(b, cmap, recs, 0, None).value.Some?
    ensures (exists k :: 0 <= k < |recs| && IsUnicodeBmp(recs[k]))
    ensures forall k: nat :: LastBmpRecord(recs, k) ==> Format4At(b, cmap + recs[k].offset as nat) == Ok(LastBmpFrom(b, cmap, recs, 0, None).value.value)
  {
    LastBmpIsLast(b, cmap, recs, 0, None);
  }

  /** `m_parse_truetype_file` on the bytes of the file: the offset table and
      directory, the metrics tables, then cmap. */
  function ParseFont(b: seq<u8>): (r: Result<Font>)
    ensures r.Ok? ==> WellFormed(r.value) && |r.value.loca| == r.value.numGlyphs as int + 1
    ensures r.Ok? ==> OffsetTable(b) == Ok(r.value.tables) && ParseMetrics(b, r.value.tables).Ok?
    ensures r.Ok? ==> ParseMetrics(b, r.value.tables).value
                      == Metrics(r.value.numGlyphs, r.value.unitsPerEm, r.value.hmetrics, r.value.loca)
    ensures r.Ok? ==> ParseCmap(b, Record(r.value.tables, TAG_CMAP).offset as nat).Ok?
  {
    match OffsetTable(b)
    case Err(e) => Err(e)
    case Ok(tables) =>
      match ParseMetrics(b, tables)
      case Err(e) => Err(e)
      case Ok(m) =>
        match ParseCmap(b, Record(tables, TAG_CMAP).offset as nat)
        case Err(e) => Err(e)
        case Ok(cm) =>
          Ok(Font(tables, m.numGlyphs, m.unitsPerEm, m.hmetrics, m.loca, cm.0, cm.1.format, cm.1.segCount, cm.1.idRangeOffsetPos))
  }

  /** The format checks of the decoder: a file it accepts has the 1.0 sfnt
      version, printable table tags, the 1.0 maxp version, a short or long
      loca format and a platform 3 / encoding 1 cmap record. */
  lemma ParseFontChecks(b: seq<u8>)
    requires ParseFont(b).Ok?
    ensures var f := ParseFont(b).value;
            U32At(b, 0) == Ok(SFNT_VERSION)
            && (forall k :: k in f.tables ==> PrintableTag(k))
            && U32At(b, MaxpOffset(f.tables)) == Ok(MAXP_VERSION)
            && I16At(b, HeadOffset(f.tables) + 50).Ok? && 0 <= I16At(b, HeadOffset(f.tables) + 50).value <= 1
            && exists k :: 0 <= k < |f.cmapHeader.encodingRecords| && IsUnicodeBmp(f.cmapHeader.encodingRecords[k])
  {
    var f := ParseFont(b).value;
    var tables := OffsetTable(b).value;
    assert tables == f.tables;
    OffsetTableTags(b);
    assert ParseMetrics(b, tables).Ok?;
    var h := MetricsFields(b, tables).value;
    var cmap := Record(tables, TAG_CMAP).offset as nat;
    assert ParseCmap(b, cmap).value.0 == f.cmapHeader;
    ParseCmapTakesLastBmp(b, cmap);
  }

  /** The hmtx array the decoder stores has one record per glyph (or per
      long metric, whichever is more), and the records past
      `numberOfHMetrics` repeat the last long metric. */
  lemma ParseFontMetrics(b: seq<u8>)
    requires ParseFont(b).Ok?
    ensures var f := ParseFont(b).value;
            U16At(b, HheaOffset(f.tables) + 34).Ok? &&
            var nhm := U16At(b, HheaOffset(f.tables) + 34).value;
            |f.hmetrics| == (if f.numGlyphs < nhm then nhm as int else f.numGlyphs as int)
            && (nhm > 0 ==> forall k :: nhm <= k < |f.hmetrics| ==> f.hmetrics[k] == f.hmetrics[nhm - 1])
            && (forall k :: 0 <= k < nhm ==> MetricAt(b, Record(f.tables, TAG_HMTX).offset as nat + 4 * k) == Ok(f.hmetrics[k]))
  {
    var f := ParseFont(b).value;
    var m := ParseMetrics(b, f.tables).value;
    assert m.hmetrics == f.hmetrics && m.numGlyphs == f.numGlyphs;
    var h := MetricsFields(b, f.tables).value;
    assert Hmtx(b, Record(f.tables, TAG_HMTX).offset as nat, h.numGlyphs, h.numHMetrics) == Ok(f.hmetrics);
  }

  // ---------------------------------------------------------------------
  // Codepoint to glyph id (cmap format 4)

  /** Segment `i` covers the codepoint `c`. */
  predicate Covers(f: Font, c: u16, i: nat)
    requires WellFormed(f) && i < f.segCount as nat
  {
    f.cmap.startCode[i] <= c <= f.cmap.endCode[i]
  }

  /** The glyph id that segment `i` maps `c` to: through the glyph id array
      when its idRangeOffset is nonzero (a zero entry stays 0, any other gets
      idDelta added modulo 65536), otherwise `c + idDelta` modulo 65536. */
  function SegmentGlyph(b: seq<u8>, f: Font, c: u16, i: nat): (r: Result<u16>)
    requires WellFormed(f) && i < f.segCount as nat && Covers(f, c, i)
    ensures f.cmap.idRangeOffset[i] == 0 ==> r == Ok(U16(c as int + f.cmap.idDelta[i] as int))
    ensures f.cmap.idRangeOffset[i] != 0 ==>
              var at := f.idRangeOffsetPos + 2 * i + f.cmap.idRangeOffset[i] as nat + 2 * (c - f.cmap.startCode[i]);
              (r.Ok? <==> at + 2 <= |b|)
              && (r.Ok? && U16At(b, at).value == 0 ==> r.value == 0)
              && (r.Ok? && U16At(b, at).value != 0 ==> r.value == U16(U16At(b, at).value as int + f.cmap.idDelta[i] as int))
  {
    if f.cmap.idRangeOffset[i] != 0 then
      var at := f.idRangeOffsetPos + 2 * i + f.cmap.idRangeOffset[i] as nat + 2 * (c - f.cmap.startCode[i]);
      var g :- U16At(b, at);
      if g != 0 then Ok(U16(g as int + f.cmap.idDelta[i] as int)) else Ok(0)
    else Ok(U16(c as int + f.cmap.idDelta[i] as int))
  }

  /** The lookup loop from segment `i` with the id found so far: every
      covering segment is evaluated and overrides the previous one. */
  function GlyphIdFrom(b: seq<u8>, f: Font, c: u16, i: nat, acc: u16): (r: Result<u16>)
    requires WellFormed(f)
    decreases f.segCount as int - i
  {
    if i >= f.segCount as nat then Ok(acc)
    else if Covers(f, c, i) then
      var g :- SegmentGlyph(b, f, c, i);
      GlyphIdFrom(b, f, c, i + 1, g)
    else GlyphIdFrom(b, f, c, i + 1, acc)
  }

  /** `m_get_truetype_glyph_id` */
  function GlyphIdOf(b: seq<u8>, f: Font, c: u16): Result<u16>
    requires WellFormed(f)
  {
    GlyphIdFrom(b, f, c, 0, 0)
  }

  lemma {:induction false} GlyphIdFromLast(b: seq<u8>, f: Font, c: u16, i: nat, acc: u16)
    requires WellFormed(f) && GlyphIdFrom(b, f, c, i, acc).Ok?
    ensures var g := GlyphIdFrom(b, f, c, i, acc).value;
            ((forall k :: i <= k < f.segCount as nat ==> !Covers(f, c, k)) ==> g == acc)
            && (forall k :: i <= k < f.segCount as nat && Covers(f, c, k)
                  && (forall j :: k < j < f.segCount as nat ==> !Covers(f, c, j))
                  ==> SegmentGlyph(b, f, c, k) == Ok(g))
    decreases f.segCount as int - i
  {
    if i < f.segCount as nat {
      if Covers(f, c, i) {
        GlyphIdFromLast(b, f, c, i + 1, SegmentGlyph(b, f, c, i).value);
      } else {
        GlyphIdFromLast(b, f, c, i + 1, acc);
      }
    }
  }

  /** The lookup answers 0 when no segment covers the codepoint, and
      otherwise what the last covering segment maps it to. */
  lemma GlyphIdIsLastCoveringSegment(b: seq<u8>, f: Font, c: u16)
    requires WellFormed(f) && GlyphIdOf(b, f, c).Ok?
    ensures (forall k :: 0 <= k < f.segCount as nat ==> !Covers(f, c, k)) ==> GlyphIdOf(b, f, c) == Ok(0)
    ensures forall k :: 0 <= k < f.segCount as nat && Covers(f, c, k)
              && (forall j :: k < j < f.segCount as nat ==> !Covers(f, c, j))
              ==> GlyphIdOf(b, f, c) == SegmentGlyph(b, f, c, k)
  {
    GlyphIdFromLast(b, f, c, 0, 0);
  }

  // ---------------------------------------------------------------------
  // Glyph header (m_get_truetype_simple_glyph_header_data)

  /** Whether the glyph has an outline, the glyph with its header fields set
      and the position after the header. */
  datatype Header = Header(present: bool, glyph: TruetypeGlyph, next: nat)

  /** The outline test of the header: the glyph's loca range is not empty
      (the last glyph compares its offset against the glyf table length). */
  predicate OutlinePresent(f: Font, id: u16)
    requires id as int < |f.loca|
  {
    if id as int + 1 >= |f.loca| then Record(f.tables, TAG_GLYF).length != f.loca[id]
    else f.loca[id] != f.loca[id + 1]
  }

  /** The five `int16_t` at the start of a glyph description: the contour
      count and the bounding box. */
  function BoxAt(b: seq<u8>, at: nat): (r: Result<(i16, i16, i16, i16, i16)>)
    ensures r.Ok? <==> at + 10 <= |b|
    ensures r.Ok? ==> I16At(b, at) == Ok(r.value.0) && I16At(b, at + 8) == Ok(r.value.4)
  {
    var nc :- I16At(b, at);
    var xMin :- I16At(b, at + 2);
    var yMin :- I16At(b, at + 4);
    var xMax :- I16At(b, at + 6);
    var yMax :- I16At(b, at + 8);
    Ok((nc, xMin, yMin, xMax, yMax))
  }

  /** The header of glyph `g.id`: with an outline, the contour count and
      bounding box are read and advance and lsb come from hmtx; without one
      only the advance is set. */
  function GlyphHeader(b: seq<u8>, f: Font, g: TruetypeGlyph): (r: Result<Header>)
    ensures r.Ok? ==> g.id as int < |f.loca| && g.id as int < |f.hmetrics|
    ensures r.Ok? ==> r.value.present == OutlinePresent(f, g.id)
    ensures r.Ok? ==> r.value.glyph.id == g.id && r.value.glyph.advanceWidth == f.hmetrics[g.id].advanceWidth
    ensures r.Ok? && r.value.present ==>
              var at := Record(f.tables, TAG_GLYF).offset as nat + f.loca[g.id] as nat;
              I16At(b, at) == Ok(r.value.glyph.numContours) && r.value.next == at + 10
              && r.value.glyph.leftSideBearing == f.hmetrics[g.id].lsb
    ensures r.Ok? && !r.value.present ==> r.value.glyph == g.(advanceWidth := f.hmetrics[g.id].advanceWidth)
  {
    if g.id as int >= |f.loca| then Err(IndexOutOfRange) else
    var present := OutlinePresent(f, g.id);
    var at := Record(f.tables, TAG_GLYF).offset as nat + f.loca[g.id] as nat;
    if present then
      var box :- BoxAt(b, at);
      if g.id as int >= |f.hmetrics| then Err(IndexOutOfRange) else
      var m := f.hmetrics[g.id];
      Ok(Header(true, g.(numContours := box.0, xMin := box.1, yMin := box.2, xMax := box.3, yMax := box.4,
                         advanceWidth := m.advanceWidth, leftSideBearing := m.lsb), at + 10))
    else if g.id as int >= |f.hmetrics| then Err(IndexOutOfRange)
    else Ok(Header(false, g.(advanceWidth := f.hmetrics[g.id].advanceWidth), at))
  }

  // ---------------------------------------------------------------------
  // Simple glyph description

  /** The largest value of a non-empty sequence. */
  function MaxOf(s: seq<u16>): (m: u16)
    requires |s| > 0
    ensures m in s && forall k :: 0 <= k < |s| ==> s[k] <= m
  {
    if |s| == 1 then s[0]
    else
      var rest := MaxOf(s[1..]);
      assert forall k :: 1 <= k < |s| ==> s[k] == s[1..][k - 1];
      if s[0] >= rest then s[0] else rest
  }

  /** `n` copies of `x`. */
  function Repeat<T>(x: T, n: nat): (r: seq<T>)
    ensures |r| == n && forall k :: 0 <= k < n ==> r[k] == x
  {
    seq(n, _ => x)
  }

  /** The flags of one flag byte at `p`: with REPEAT_FLAG the next byte is a
      count `k` and the flag stands for `k + 1` points, otherwise for one. */
  function FlagRun(b: seq<u8>, p: nat): (r: Result<(seq<GlyphFlags>, nat)>)
    ensures r.Ok? ==> p < |b|
    ensures r.Ok? && HasBit(b[p], REPEAT_FLAG as nat) ==>
              p + 1 < |b| && r.value.1 == p + 2
              && r.value.0 == Repeat(FlagsOf(b[p], b[p + 1]), b[p + 1] as nat + 1)
    ensures r.Ok? && !HasBit(b[p], REPEAT_FLAG as nat) ==>
              r.value.1 == p + 1 && r.value.0 == [FlagsOf(b[p], 0)]
    ensures r.Err? ==> p >= |b| || (HasBit(b[p], REPEAT_FLAG as nat) && p + 1 >= |b|)
  {
    var flag :- U8At(b, p);
    if HasBit(flag, REPEAT_FLAG as nat) then
      var count :- U8At(b, p + 1);
      Ok((Repeat(FlagsOf(flag, count), count as nat + 1), p + 2))
    else Ok(([FlagsOf(flag, 0)], p + 1))
  }

  /** The flag loop with `done` points covered so far out of `n`. A run may
      cover more points than remain, so the result can be longer than `n`. */
  function FlagsFrom(b: seq<u8>, p: nat, done: nat, n: nat, acc: seq<GlyphFlags>): (r: Result<(seq<GlyphFlags>, nat)>)
    decreases n - done
    ensures r.Ok? && |acc| == done ==> n <= |r.value.0| && (done < n ==> |r.value.0| < n + 256)
    ensures r.Ok? && |acc| == done && done >= n ==> r.value.0 == acc
    ensures r.Ok? ==> acc <= r.value.0
  {
    if done >= n then Ok((acc, p))
    else
      var run :- FlagRun(b, p);
      FlagsFrom(b, run.1, done + |run.0|, n, acc + run.0)
  }

  /** The delta of one coordinate: +u8 or -u8 for a short vector (by the
      same-or-positive bit), 0 for a repeated coordinate, otherwise an int16;
      with the position after it. */
  function CoordDelta(b: seq<u8>, p: nat, fl: GlyphFlags, isX: bool): (r: Result<(int, nat)>)
    ensures r.Ok? ==> -0x8000 <= r.value.0 < 0x8000 && p <= r.value.1 <= p + 2
  {
    var short := if isX then fl.xShortVector else fl.yShortVector;
    var same := if isX then fl.xIsSameOrPositive else fl.yIsSameOrPositive;
    if short then
      var v :- U8At(b, p);
      if same then Ok((v as int, p + 1)) else Ok((-(v as int), p + 1))
    else if same then Ok((0, p))
    else
      var v :- I16At(b, p);
      Ok((v as int, p + 2))
  }

  /** The coordinate loop for one axis from point `k` on: each coordinate is
      the previous one (0 for the first point) plus its delta, wrapped to
      int16. */
  function CoordsFrom(b: seq<u8>, p: nat, flags: seq<GlyphFlags>, isX: bool, k: nat, n: nat, acc: seq<i16>)
    : (r: Result<(seq<i16>, nat)>)
    requires n <= |flags|
    decreases n - k
    ensures r.Ok? && |acc| == k <= n ==> |r.value.0| == n && r.value.0[..k] == acc
  {
    if k >= n then Ok((acc, p))
    else
      var d :- CoordDelta(b, p, flags[k], isX);
      var prev := if |acc| == 0 then 0 else acc[|acc| - 1];
      CoordsFrom(b, d.1, flags, isX, k + 1, n, acc + [I16(prev as int + d.0)])
  }

  /** The deltas of points `k` to `n - 1`, decoded one after another
      without accumulating, with the position after the last. */
  function DeltasFrom(b: seq<u8>, p: nat, flags: seq<GlyphFlags>, isX: bool, k: nat, n: nat): (r: Result<(seq<int>, nat)>)
    requires n <= |flags|
    decreases n - k
    ensures r.Ok? && k <= n ==> |r.value.0| == n - k
  {
    if k >= n then Ok(([], p))
    else
      var d :- CoordDelta(b, p, flags[k], isX);
      var rest :- DeltasFrom(b, d.1, flags, isX, k + 1, n);
      Ok(([d.0] + rest.0, rest.1))
  }

  /** The sum of a sequence of deltas. */
  function Sum(s: seq<int>): int
  {
    if |s| == 0 then 0 else s[0] + Sum(s[1..])
  }

  /** Wrapping to `int16_t` before adding changes nothing after the final
      wrap. */
  lemma I16Add(x: int, d: int)
    ensures I16(I16(x) + d) == I16(x + d)
  {
    WrapIsModular(x);
    var q := (I16(x) - x) / 0x1_0000;
    assert I16(x) + d == x + d + 0x1_0000 * q;
    assert (I16(x) + d) % 0x1_0000 == (x + d) % 0x1_0000;
  }

  /** The first `j + 1` deltas of `[x] + rest` are `x` and the first `j`
      of `rest`. */
  lemma SumCons(x: int, rest: seq<int>, j: nat)
    requires j <= |rest|
    ensures Sum(([x] + rest)[..j + 1]) == x + Sum(rest[..j])
  {
    assert ([x] + rest)[..j + 1] == [x] + rest[..j];
    assert ([x] + rest[..j])[1..] == rest[..j];
  }

  /** The coordinate before the next point: the last one read, or 0. */
  function LastCoord(acc: seq<i16>): i16
  {
    if |acc| == 0 then 0 else acc[|acc| - 1]
  }

  /** The coordinates that the deltas `ds` lead to from `prev`, each the
      one before plus its delta, wrapped to 16 bits. */
  function Running(ds: seq<int>, prev: int): (r: seq<i16>)
    ensures |r| == |ds|
  {
    if |ds| == 0 then [] else
      var c := I16(prev + ds[0]);
      [c] + Running(ds[1..], c)
  }

  /** The coordinate walk a delta walk gives: the same failure, or the
      coordinates already read followed by the running coordinates. */
  function WalkOfDeltas(d: Result<(seq<int>, nat)>, acc: seq<i16>): Result<(seq<i16>, nat)>
  {
    if d.Err? then Err(d.error) else Ok((acc + Running(d.value.0, LastCoord(acc)), d.value.1))
  }

  /** From point `k` on, the coordinate walk is the delta walk with the
      running coordinates laid over it: it fails exactly when a delta
      fails, and otherwise ends at the same position. */
  lemma {:induction false} CoordsWalkDeltas(b: seq<u8>, p: nat, flags: seq<GlyphFlags>, isX: bool, k: nat, n: nat, acc: seq<i16>)
    requires n <= |flags| && k <= n
    ensures CoordsFrom(b, p, flags, isX, k, n, acc) == WalkOfDeltas(DeltasFrom(b, p, flags, isX, k, n), acc)
    decreases n - k
  {
    if k < n && CoordDelta(b, p, flags[k], isX).Ok? {
      var d := CoordDelta(b, p, flags[k], isX).value;
      var cur := I16(LastCoord(acc) as int + d.0);
      CoordsWalkDeltas(b, d.1, flags, isX, k + 1, n, acc + [cur]);
      WalkDeltaStep(b, p, flags, isX, k, n, acc);
    } else {
      WalkStops(b, p, flags, isX, k, n, acc);
    }
  }

  /** A walk with no point left, or whose next delta fails, agrees with
      the delta walk. */
  lemma WalkStops(b: seq<u8>, p: nat, flags: seq<GlyphFlags>, isX: bool, k: nat, n: nat, acc: seq<i16>)
    requires n <= |flags| && k <= n
    requires k < n ==> CoordDelta(b, p, flags[k], isX).Err?
    ensures CoordsFrom(b, p, flags, isX, k, n, acc) == WalkOfDeltas(DeltasFrom(b, p, flags, isX, k, n), acc)
  {
    if k >= n {
      assert acc + Running([], LastCoord(acc)) == acc;
    }
  }

  /** One decoded delta carries the agreement of the walks from point
      `k + 1` back to point `k`. */
  lemma WalkDeltaStep(b: seq<u8>, p: nat, flags: seq<GlyphFlags>, isX: bool, k: nat, n: nat, acc: seq<i16>)
    requires k < n <= |flags| && CoordDelta(b, p, flags[k], isX).Ok?
    requires var d := CoordDelta(b, p, flags[k], isX).value;
             var cur := I16(LastCoord(acc) as int + d.0);
             CoordsFrom(b, d.1, flags, isX, k + 1, n, acc + [cur]) == WalkOfDeltas(DeltasFrom(b, d.1, flags, isX, k + 1, n), acc + [cur])
    ensures CoordsFrom(b, p, flags, isX, k, n, acc) == WalkOfDeltas(DeltasFrom(b, p, flags, isX, k, n), acc)
  {
    var d := CoordDelta(b, p, flags[k], isX).value;
    var rest := DeltasFrom(b, d.1, flags, isX, k + 1, n);
    if rest.Ok? {
      assert DeltasFrom(b, p, flags, isX, k, n) == Ok(([d.0] + rest.value.0, rest.value.1));
      RunningCons(acc, d.0, rest.value.0);
    }
  }

  /** Laying deltas over the coordinates read so far is laying the first
      one, then the rest from the coordinate it gives. */
  lemma RunningCons(acc: seq<i16>, x: int, rest: seq<int>)
    ensures var cur := I16(LastCoord(acc) as int + x);
            acc + Running([x] + rest, LastCoord(acc)) == (acc + [cur]) + Running(rest, LastCoord(acc + [cur]))
  {
    var cur := I16(LastCoord(acc) as int + x);
    assert ([x] + rest)[1..] == rest;
    assert LastCoord(acc + [cur]) == cur;
  }

  /** Running coordinate `j` is `prev` plus the first `j + 1` deltas,
      wrapped to 16 bits. */
  lemma {:induction false} RunningIsSum(ds: seq<int>, prev: int, j: nat)
    requires j < |ds|
    ensures Running(ds, prev)[j] == I16(prev + Sum(ds[..j + 1]))
    decreases j
  {
    var c := I16(prev + ds[0]);
    if j == 0 {
      assert ds[..1][1..] == [];
    } else {
      RunningIsSum(ds[1..], c, j - 1);
      I16Add(prev + ds[0], Sum(ds[1..][..j]));
      SumCons(ds[0], ds[1..], j);
      assert [ds[0]] + ds[1..] == ds;
    }
  }

  /** The coordinates of a glyph are the running sums of their deltas,
      wrapped to 16 bits, starting from 0: coordinate `j` is the sum of the
      first `j + 1` deltas. */
  lemma CoordsAreRunningSums(b: seq<u8>, p: nat, flags: seq<GlyphFlags>, isX: bool, n: nat)
    requires n <= |flags|
    ensures CoordsFrom(b, p, flags, isX, 0, n, []).Ok? <==> DeltasFrom(b, p, flags, isX, 0, n).Ok?
    ensures var c := CoordsFrom(b, p, flags, isX, 0, n, []);
            var d := DeltasFrom(b, p, flags, isX, 0, n);
            c.Ok? ==> (c.value.1 == d.value.1 && forall j :: 0 <= j < n ==> c.value.0[j] == I16(Sum(d.value.0[..j + 1])))
  {
    CoordsWalkDeltas(b, p, flags, isX, 0, n, []);
    var d := DeltasFrom(b, p, flags, isX, 0, n);
    if d.Ok? {
      forall j | 0 <= j < n
        ensures CoordsFrom(b, p, flags, isX, 0, n, []).value.0[j] == I16(Sum(d.value.0[..j + 1]))
      {
        RunningIsSum(d.value.0, 0, j);
      }
    }
  }


  /** The shape a decoded outline has: one coordinate pair per point, at
      least one flag per point, one end point per contour. */
  predicate OutlineShape(g: TruetypeGlyph) {
    g.numContours >= 0 && |g.endPtsOfContours| == g.numContours as int
    && |g.xCoords| == g.numPoints as int && |g.yCoords| == g.numPoints as int
    && |g.flags| >= g.numPoints as int
  }

  /** `m_get_truetype_simple_glyph_data` on glyph `g` with the reader at
      `p`.  A negative contour count makes the source's unsigned loop bound
      huge, so it reads past the end. */
  function SimpleGlyphData(b: seq<u8>, g: TruetypeGlyph, p: nat): (r: Result<TruetypeGlyph>)
    requires g.flags == [] && g.xCoords == [] && g.yCoords == [] && g.endPtsOfContours == []
    ensures r.Ok? ==> OutlineShape(r.value) && r.value.numContours == g.numContours
    ensures r.Ok? ==> |r.value.endPtsOfContours| > 0
                      && r.value.numPoints == U16(MaxOf(r.value.endPtsOfContours) as int + 1)
    ensures r.Ok? ==> r.value.id == g.id && r.value.advanceWidth == g.advanceWidth
    ensures g.numContours < 0 ==> r == Err(OutOfBounds)
  {
    var g' :- ContourEnds(b, g, p);
    SimplePoints(b, g', p + 2 * g.numContours as nat)
  }

  /** The contour end points of `g` read from byte `p`, and the point count
      one past the largest of them. */
  function ContourEnds(b: seq<u8>, g: TruetypeGlyph, p: nat): (r: Result<TruetypeGlyph>)
    ensures r.Ok? ==> 0 < g.numContours && |r.value.endPtsOfContours| == g.numContours as int
    ensures r.Ok? ==> r.value == g.(endPtsOfContours := r.value.endPtsOfContours,
                                    numPoints := U16(MaxOf(r.value.endPtsOfContours) as int + 1))
    ensures g.numContours < 0 ==> r == Err(OutOfBounds)
  {
    if g.numContours < 0 then Err(OutOfBounds) else
    var ends :- U16ArrayFrom(b, p, g.numContours as nat, []);
    if |ends| == 0 then Err(NoContourEndPoints) else
    Ok(g.(endPtsOfContours := ends, numPoints := U16(MaxOf(ends) as int + 1)))
  }

  /** The rest of a simple description once the end points are known and
      the reader is at `q`: instructions, flags, then x and y
      coordinates. */
  function SimplePoints(b: seq<u8>, g: TruetypeGlyph, q: nat): (r: Result<TruetypeGlyph>)
    ensures r.Ok? ==> r.value == g.(instructionLen := r.value.instructionLen, instructions := r.value.instructions,
                                    flags := r.value.flags, xCoords := r.value.xCoords, yCoords := r.value.yCoords)
    ensures r.Ok? ==> |r.value.xCoords| == |r.value.yCoords| == g.numPoints as int <= |r.value.flags|
  {
    var instructionLen :- U16At(b, q);
    var instructions :- BytesFrom(b, q + 2, instructionLen as nat, []);
    OutlinePoints(b, g.(instructionLen := instructionLen, instructions := instructions), q + 2 + instructionLen as nat)
  }

  /** The flags and the x and y coordinates of `g.numPoints` points from
      byte `p` on. */
  function OutlinePoints(b: seq<u8>, g: TruetypeGlyph, p: nat): (r: Result<TruetypeGlyph>)
    ensures r.Ok? ==> r.value == g.(flags := r.value.flags, xCoords := r.value.xCoords, yCoords := r.value.yCoords)
    ensures r.Ok? ==> |r.value.xCoords| == |r.value.yCoords| == g.numPoints as int <= |r.value.flags|
  {
    var fl :- FlagsFrom(b, p, 0, g.numPoints as nat, []);
    var xs :- CoordsFrom(b, fl.1, fl.0, true, 0, g.numPoints as nat, []);
    var ys :- CoordsFrom(b, xs.1, fl.0, false, 0, g.numPoints as nat, []);
    Ok(g.(flags := fl.0, xCoords := xs.0, yCoords := ys.0))
  }

  // ---------------------------------------------------------------------
  // Composite glyph description

  /** The two arguments of a component record at byte `p`: signed words
      (xy offsets), unsigned words (point numbers), signed bytes (xy
      offsets, read through `char` without a bounds check) or unsigned bytes
      (point numbers), chosen by ARG_1_AND_2_ARE_WORDS and
      ARGS_ARE_XY_VALUES; with the position after them. */
  function ComponentArgs(b: seq<u8>, p: nat, c: GlyphComponent): (r: Result<(GlyphComponent, nat)>)
    ensures r.Ok? ==> r.value.1 <= |b|
    ensures r.Ok? ==> r.value.0.flag == c.flag && r.value.0.glyphIndex == c.glyphIndex
    ensures r.Ok? && !HasBit(c.flag, ARGS_ARE_XY_VALUES as nat) ==> r.value.0.xyArg1 == c.xyArg1 && r.value.0.xyArg2 == c.xyArg2
    ensures r.Ok? && HasBit(c.flag, ARG_1_AND_2_ARE_WORDS as nat) ==> r.value.1 == p + 4
    ensures r.Ok? && !HasBit(c.flag, ARG_1_AND_2_ARE_WORDS as nat) ==> r.value.1 == p + 2
    ensures r.Ok? && HasBit(c.flag, ARG_1_AND_2_ARE_WORDS as nat) && HasBit(c.flag, ARGS_ARE_XY_VALUES as nat) ==>
              I16At(b, p) == Ok(r.value.0.xyArg1) && I16At(b, p + 2) == Ok(r.value.0.xyArg2)
    ensures r.Ok? && !HasBit(c.flag, ARG_1_AND_2_ARE_WORDS as nat) && HasBit(c.flag, ARGS_ARE_XY_VALUES as nat) ==>
              p + 2 <= |b| && r.value.0.xyArg1 == SignExtend8(b[p]) && r.value.0.xyArg2 == SignExtend8(b[p + 1])
  {
    var words := HasBit(c.flag, ARG_1_AND_2_ARE_WORDS as nat);
    var xy := HasBit(c.flag, ARGS_ARE_XY_VALUES as nat);
    if words && xy then
      var a1 :- I16At(b, p);
      var a2 :- I16At(b, p + 2);
      Ok((c.(xyArg1 := a1, xyArg2 := a2), p + 4))
    else if words then
      var a1 :- U16At(b, p);
      var a2 :- U16At(b, p + 2);
      Ok((c.(ptArg1 := a1, ptArg2 := a2), p + 4))
    else if xy then
      if p + 2 > |b| then Err(OutOfBounds)
      else Ok((c.(xyArg1 := SignExtend8(b[p]), xyArg2 := SignExtend8(b[p + 1])), p + 2))
    else
      var a1 :- U8At(b, p);
      var a2 :- U8At(b, p + 1);
      Ok((c.(ptArg1 := a1, ptArg2 := a2), p + 2))
  }

  /** The number of bytes of scale fields a component flag announces: the
      single scale wins over the x and y scales, which win over the
      matrix. */
  function ScaleBytes(flag: u16): (n: nat)
    ensures n <= 8 && (n == 0 <==> !HasBit(flag, WE_HAVE_A_SCALE as nat) && !HasBit(flag, WE_HAVE_AN_X_AND_Y_SCALE as nat)
                                     && !HasBit(flag, WE_HAVE_A_TWO_BY_TWO as nat))
  {
    if HasBit(flag, WE_HAVE_A_SCALE as nat) then 2
    else if HasBit(flag, WE_HAVE_AN_X_AND_Y_SCALE as nat) then 4
    else if HasBit(flag, WE_HAVE_A_TWO_BY_TWO as nat) then 8
    else 0
  }

  /** The optional scale fields of a component record at byte `q`: one
      scale, an x and a y scale, or a 2x2 matrix, each read as `int16` and
      stored as `uint16`; with the position after them. */
  function ComponentScales(b: seq<u8>, q: nat, c: GlyphComponent): (r: Result<(GlyphComponent, nat)>)
    requires q <= |b|
    ensures r.Ok? ==> r.value.1 <= |b|
    ensures r.Ok? ==> r.value.0.flag == c.flag && r.value.0.glyphIndex == c.glyphIndex
                      && r.value.0.xyArg1 == c.xyArg1 && r.value.0.xyArg2 == c.xyArg2
                      && r.value.0.ptArg1 == c.ptArg1 && r.value.0.ptArg2 == c.ptArg2
    ensures r.Ok? ==> r.value.1 == q + ScaleBytes(c.flag)
    ensures r.Ok? && ScaleBytes(c.flag) == 0 ==> r.value == (c, q)
    ensures r.Ok? <==> q + ScaleBytes(c.flag) <= |b|
  {
    if HasBit(c.flag, WE_HAVE_A_SCALE as nat) then
      var s :- I16At(b, q);
      Ok((c.(scale := U16(s)), q + 2))
    else if HasBit(c.flag, WE_HAVE_AN_X_AND_Y_SCALE as nat) then
      var sx :- I16At(b, q);
      var sy :- I16At(b, q + 2);
      Ok((c.(xScale := U16(sx), yScale := U16(sy)), q + 4))
    else if HasBit(c.flag, WE_HAVE_A_TWO_BY_TWO as nat) then
      var sx :- I16At(b, q);
      var s01 :- I16At(b, q + 2);
      var s10 :- I16At(b, q + 4);
      var sy :- I16At(b, q + 6);
      Ok((c.(xScale := U16(sx), scale01 := U16(s01), scale10 := U16(s10), yScale := U16(sy)), q + 8))
    else Ok((c, q))
  }

  /** The flag bits a component record keeps as booleans. */
  function WithFlagBits(c: GlyphComponent): (r: GlyphComponent)
    ensures r.useBaseGlyphAwAndLsb <==> HasBit(c.flag, USE_MY_METRICS as nat)
    ensures r.scaledComponentOffset <==> HasBit(c.flag, SCALED_COMPONENT_OFFSET as nat) && !HasBit(c.flag, UNSCALED_COMPONENT_OFFSET as nat)
    ensures r.flag == c.flag && r.glyphIndex == c.glyphIndex && r.xyArg1 == c.xyArg1 && r.xyArg2 == c.xyArg2
  {
    c.(roundToNearestGridLine := HasBit(c.flag, ROUND_XY_TO_GRID as nat),
       instructionsPresent := HasBit(c.flag, WE_HAVE_INSTRUCTIONS as nat),
       useBaseGlyphAwAndLsb := HasBit(c.flag, USE_MY_METRICS as nat),
       overlapCompound := HasBit(c.flag, OVERLAP_COMPOUND as nat),
       scaledComponentOffset := HasBit(c.flag, SCALED_COMPONENT_OFFSET as nat) && !HasBit(c.flag, UNSCALED_COMPONENT_OFFSET as nat))
  }

  /** One component record at byte `p`: flag, glyph index, arguments and
      scales; with the position after it. */
  function ComponentAt(b: seq<u8>, p: nat): (r: Result<(GlyphComponent, nat)>)
    ensures r.Ok? ==> p + 6 <= r.value.1 <= |b|
    ensures r.Ok? ==> U16At(b, p) == Ok(r.value.0.flag) && U16At(b, p + 2) == Ok(r.value.0.glyphIndex)
    ensures r.Ok? ==> HasBit(r.value.0.flag, ARGS_ARE_XY_VALUES as nat) || (r.value.0.xyArg1 == 0 && r.value.0.xyArg2 == 0)
    ensures r.Ok? ==> (r.value.0.useBaseGlyphAwAndLsb <==> HasBit(r.value.0.flag, USE_MY_METRICS as nat))
  {
    var flag :- U16At(b, p);
    var index :- U16At(b, p + 2);
    var args :- ComponentArgs(b, p + 4, NewComponent(flag, index));
    var scaled :- ComponentScales(b, args.1, args.0);
    Ok((WithFlagBits(scaled.0), scaled.1))
  }

  predicate MoreComponents(c: GlyphComponent) {
    HasBit(c.flag, MORE_COMPONENTS as nat)
  }

  /** The component loop from byte `p`: records are read until one lacks
      MORE_COMPONENTS. */
  function ComponentsFrom(b: seq<u8>, p: nat, acc: seq<GlyphComponent>): (r: Result<(seq<GlyphComponent>, nat)>)
    decreases |b| - p
    ensures r.Ok? ==> |r.value.0| > |acc| && forall k :: 0 <= k < |acc| ==> r.value.0[k] == acc[k]
    ensures r.Ok? ==> forall k :: |acc| <= k < |r.value.0| - 1 ==> MoreComponents(r.value.0[k])
  {
    match ComponentAt(b, p)
    case Err(e) => Err(e)
    case Ok(cq) =>
      if MoreComponents(cq.0) then ComponentsFrom(b, cq.1, acc + [cq.0])
      else Ok((acc + [cq.0], cq.1))
  }

  /** The component loop stops at the first record without
      MORE_COMPONENTS: the last record read lacks it. */
  lemma {:induction false} ComponentsEndWithoutMore(b: seq<u8>, p: nat, acc: seq<GlyphComponent>)
    requires ComponentsFrom(b, p, acc).Ok?
    decreases |b| - p
    ensures var cs := ComponentsFrom(b, p, acc).value.0; !MoreComponents(cs[|cs| - 1])
  {
    var cq := ComponentAt(b, p).value;
    if MoreComponents(cq.0) {
      ComponentsEndWithoutMore(b, cq.1, acc + [cq.0]);
    } else {
      var cs := acc + [cq.0];
      assert cs[|cs| - 1] == cq.0;
    }
  }

  // ---------------------------------------------------------------------
  // Loading a glyph

  /** The two-argument `m_get_truetype_glyph_data_by_id`: header, then the
      simple description whenever there is an outline. */
  function PieceGlyph(b: seq<u8>, f: Font, id: u16): (r: Result<TruetypeGlyph>)
    ensures r.Ok? ==> OutlineShape(r.value) && r.value.id == id
  {
    var h :- GlyphHeader(b, f, EmptyGlyph(id));
    if !h.present then Ok(h.glyph) else SimpleGlyphData(b, h.glyph, h.next)
  }

  /** The three-argument overload: a negative contour count selects the
      component records instead of the simple description. */
  function GlyphAndComponents(b: seq<u8>, f: Font, id: u16): (r: Result<(TruetypeGlyph, seq<GlyphComponent>)>)
    ensures r.Ok? && |r.value.1| == 0 ==> OutlineShape(r.value.0)
    ensures r.Ok? && |r.value.1| > 0 ==> r.value.0.numContours < 0
    ensures r.Ok? ==> r.value.0.id == id
  {
    var h :- GlyphHeader(b, f, EmptyGlyph(id));
    if !h.present then Ok((h.glyph, []))
    else if h.glyph.numContours >= 0 then
      var g :- SimpleGlyphData(b, h.glyph, h.next);
      Ok((g, []))
    else
      var cs :- ComponentsFrom(b, h.next, []);
      Ok((h.glyph, cs.0))
  }

  /** Every coordinate shifted by `d`, wrapped to int16. */
  function Translate(s: seq<i16>, d: int): (r: seq<i16>)
    ensures |r| == |s| && forall k :: 0 <= k < |s| ==> r[k] == I16(s[k] as int + d)
  {
    seq(|s|, k requires 0 <= k < |s| => I16(s[k] as int + d))
  }

  /** Every end point index shifted by `d`, wrapped to uint16. */
  function ShiftEndPoints(s: seq<u16>, d: int): (r: seq<u16>)
    ensures |r| == |s| && forall k :: 0 <= k < |s| ==> r[k] == U16(s[k] as int + d)
  {
    seq(|s|, k requires 0 <= k < |s| => U16(s[k] as int + d))
  }

  /** One step of the merge: the piece's points (moved by the component's
      xy arguments when either is nonzero) and its end points (shifted by the
      points merged so far) are appended, and the counts are summed with
      16-bit wrap-around. */
  function AppendPiece(g: TruetypeGlyph, piece: TruetypeGlyph, c: GlyphComponent): (r: TruetypeGlyph)
    requires OutlineShape(piece)
    ensures r.numContours == I16(g.numContours as int + piece.numContours as int)
    ensures r.numPoints == U16(g.numPoints as int + piece.numPoints as int)
    ensures |r.xCoords| == |g.xCoords| + piece.numPoints as int && |r.yCoords| == |g.yCoords| + piece.numPoints as int
    ensures |r.flags| == |g.flags| + piece.numPoints as int
    ensures |r.endPtsOfContours| == |g.endPtsOfContours| + piece.numContours as int
    ensures r.id == g.id && r.advanceWidth == g.advanceWidth && r.leftSideBearing == g.leftSideBearing
  {
    var moved := if c.xyArg1 != 0 || c.xyArg2 != 0 then
                   piece.(xCoords := Translate(piece.xCoords, c.xyArg1 as int), yCoords := Translate(piece.yCoords, c.xyArg2 as int))
                 else piece;
    g.(endPtsOfContours := g.endPtsOfContours + ShiftEndPoints(piece.endPtsOfContours, g.numPoints as int),
       numContours := I16(g.numContours as int + piece.numContours as int),
       numPoints := U16(g.numPoints as int + piece.numPoints as int),
       flags := g.flags + piece.flags[..piece.numPoints],
       xCoords := g.xCoords + moved.xCoords,
       yCoords := g.yCoords + moved.yCoords)
  }

  /** Point `k` of a merged piece is the piece's point moved by the
      component's xy arguments; a component with default (zero) arguments
      leaves the points where they are. */
  lemma AppendPieceMovesPoints(g: TruetypeGlyph, piece: TruetypeGlyph, c: GlyphComponent, k: nat)
    requires OutlineShape(piece) && k < piece.numPoints as nat
    ensures var r := AppendPiece(g, piece, c);
            r.xCoords[|g.xCoords| + k] == I16(piece.xCoords[k] as int + c.xyArg1 as int)
            && r.yCoords[|g.yCoords| + k] == I16(piece.yCoords[k] as int + c.xyArg2 as int)
            && r.flags[|g.flags| + k] == piece.flags[k]
  {
    var r := AppendPiece(g, piece, c);
    if c.xyArg1 == 0 && c.xyArg2 == 0 {
      assert r.xCoords == g.xCoords + piece.xCoords;
      assert r.yCoords == g.yCoords + piece.yCoords;
    }
  }

  /** End point `k` of a merged piece is the piece's end point shifted by the
      number of points merged before it. */
  lemma AppendPieceShiftsEndPoints(g: TruetypeGlyph, piece: TruetypeGlyph, c: GlyphComponent, k: nat)
    requires OutlineShape(piece) && k < piece.numContours as nat
    ensures AppendPiece(g, piece, c).endPtsOfContours[|g.endPtsOfContours| + k]
            == U16(piece.endPtsOfContours[k] as int + g.numPoints as int)
  {
  }

  /** Every glyph has arrays of the sizes its counts give. */
  predicate AllShaped(gs: seq<TruetypeGlyph>)
  {
    forall k :: 0 <= k < |gs| ==> OutlineShape(gs[k])
  }

  /** The pieces of the components from `i` on, each loaded through the
      two-argument overload. */
  function PiecesFrom(b: seq<u8>, f: Font, comps: seq<GlyphComponent>, i: nat, acc: seq<TruetypeGlyph>)
    : (r: Result<seq<TruetypeGlyph>>)
    decreases |comps| - i
    ensures r.Ok? && |acc| == i <= |comps| ==> |r.value| == |comps|
    ensures r.Ok? ==> |acc| <= |r.value| && r.value[..|acc|] == acc
    ensures r.Ok? && AllShaped(acc) ==> AllShaped(r.value)
  {
    if i >= |comps| then Ok(acc)
    else
      var piece :- PieceGlyph(b, f, comps[i].glyphIndex);
      var acc' := acc + [piece];
      assert acc'[..|acc|] == acc;
      assert AllShaped(acc) ==> AllShaped(acc');
      var r := PiecesFrom(b, f, comps, i + 1, acc');
      assert r.Ok? ==> r.value[..|acc'|][..|acc|] == r.value[..|acc|];
      r
  }

  /** Each piece is what the two-argument overload loads for its
      component's glyph index. */
  lemma {:induction false} PiecesAreComponentGlyphs(b: seq<u8>, f: Font, comps: seq<GlyphComponent>, i: nat, acc: seq<TruetypeGlyph>)
    requires |acc| == i <= |comps|
    requires PiecesFrom(b, f, comps, i, acc).Ok?
    decreases |comps| - i
    ensures var r := PiecesFrom(b, f, comps, i, acc).value;
            forall k :: i <= k < |comps| ==> PieceGlyph(b, f, comps[k].glyphIndex) == Ok(r[k])
  {
    if i < |comps| {
      var loaded := PieceGlyph(b, f, comps[i].glyphIndex);
      var piece := loaded.value;
      var rest := PiecesFrom(b, f, comps, i + 1, acc + [piece]);
      assert PiecesFrom(b, f, comps, i, acc) == rest;
      PiecesAreComponentGlyphs(b, f, comps, i + 1, acc + [piece]);
      assert rest.value[i] == (acc + [piece])[i];
      forall k | i <= k < |comps|
        ensures PieceGlyph(b, f, comps[k].glyphIndex) == Ok(rest.value[k])
      {
        if k == i {
          assert loaded == Ok(piece);
        }
      }
    }
  }

  /** The merge loop from component `i` with the glyph merged so far. */
  function MergeFrom(g: TruetypeGlyph, pieces: seq<TruetypeGlyph>, comps: seq<GlyphComponent>, i: nat): (r: TruetypeGlyph)
    requires |pieces| == |comps| && AllShaped(pieces)
    decreases |comps| - i
    ensures r.id == g.id && r.advanceWidth == g.advanceWidth && r.leftSideBearing == g.leftSideBearing
    ensures |g.xCoords| == |g.yCoords| == |g.flags| ==> |r.xCoords| == |r.yCoords| == |r.flags|
    ensures |g.endPtsOfContours| <= |r.endPtsOfContours| && |g.xCoords| <= |r.xCoords|
    ensures r.endPtsOfContours[..|g.endPtsOfContours|] == g.endPtsOfContours && r.xCoords[..|g.xCoords|] == g.xCoords
  {
    if i >= |comps| then g
    else MergeFrom(AppendPiece(g, pieces[i], comps[i]), pieces, comps, i + 1)
  }

  /** The glyph index whose metrics the composite takes: the index of the
      last USE_MY_METRICS component from `i` on, or `base` if there is
      none. */
  function MetricsIndex(comps: seq<GlyphComponent>, i: nat, base: u16): (r: u16)
    decreases |comps| - i
  {
    if i >= |comps| then base
    else MetricsIndex(comps, i + 1, if comps[i].useBaseGlyphAwAndLsb then comps[i].glyphIndex else base)
  }

  /** The metrics index is the glyph index of the last USE_MY_METRICS
      component (or the starting value when there is none). */
  lemma {:induction false} MetricsIndexIsLast(comps: seq<GlyphComponent>, i: nat, base: u16)
    decreases |comps| - i
    ensures var r := MetricsIndex(comps, i, base);
            ((forall k :: i <= k < |comps| ==> !comps[k].useBaseGlyphAwAndLsb) ==> r == base)
            && (forall k :: i <= k < |comps| && comps[k].useBaseGlyphAwAndLsb
                 && (forall j :: k < j < |comps| ==> !comps[j].useBaseGlyphAwAndLsb)
                 ==> r == comps[k].glyphIndex)
  {
    if i < |comps| {
      MetricsIndexIsLast(comps, i + 1, if comps[i].useBaseGlyphAwAndLsb then comps[i].glyphIndex else base);
    }
  }

  /** The composite loop from component `i`, with the glyph merged so far
      and the metrics index chosen so far: each component's piece is loaded
      through the two-argument overload, a USE_MY_METRICS component takes
      over the metrics index, and the piece is merged. */
  function CompositeFrom(b: seq<u8>, f: Font, comps: seq<GlyphComponent>, i: nat, g: TruetypeGlyph, base: u16)
    : (r: Result<(TruetypeGlyph, u16)>)
    decreases |comps| - i
    ensures r.Ok? ==> r.value.0.id == g.id
  {
    if i >= |comps| then Ok((g, base))
    else
      var piece :- PieceGlyph(b, f, comps[i].glyphIndex);
      var base' := if comps[i].useBaseGlyphAwAndLsb then comps[i].glyphIndex else base;
      CompositeFrom(b, f, comps, i + 1, AppendPiece(g, piece, comps[i]), base')
  }

  /** The composite loop loads every piece, fails exactly when loading one
      of them fails, and otherwise yields the merge of all the pieces and the
      index of the last USE_MY_METRICS component. */
  lemma {:induction false} CompositeIsMergeOfPieces(b: seq<u8>, f: Font, comps: seq<GlyphComponent>, i: nat,
                                                    acc: seq<TruetypeGlyph>, g: TruetypeGlyph, base: u16)
    requires |acc| == i <= |comps| && AllShaped(acc)
    decreases |comps| - i
    ensures var r := CompositeFrom(b, f, comps, i, g, base);
            var pieces := PiecesFrom(b, f, comps, i, acc);
            r.Ok? == pieces.Ok?
            && (r.Ok? ==> r.value == (MergeFrom(g, pieces.value, comps, i), MetricsIndex(comps, i, base)))
  {
    if i < |comps| {
      var piece := PieceGlyph(b, f, comps[i].glyphIndex);
      if piece.Ok? {
        var base' := if comps[i].useBaseGlyphAwAndLsb then comps[i].glyphIndex else base;
        var acc' := acc + [piece.value];
        assert AllShaped(acc');
        CompositeIsMergeOfPieces(b, f, comps, i + 1, acc', AppendPiece(g, piece.value, comps[i]), base');
        var pieces := PiecesFrom(b, f, comps, i + 1, acc');
        if pieces.Ok? {
          assert pieces.value[i] == acc'[i] == piece.value;
        }
      }
    }
  }

  /** `m_get_truetype_glyph`: look the codepoint up and load the glyph; a
      composite is rebuilt from its components' pieces (always read as
      simple glyphs, so nesting is one level deep) starting from zero
      contours, and takes advance and lsb from the last USE_MY_METRICS
      component when that index is not 0. */
  function LoadGlyph(b: seq<u8>, f: Font, c: u16): (r: Result<TruetypeGlyph>)
    requires WellFormed(f)
    ensures r.Ok? ==> GlyphIdOf(b, f, c).Ok? && r.value.id == GlyphIdOf(b, f, c).value
  {
    var id :- GlyphIdOf(b, f, c);
    var gc :- GlyphAndComponents(b, f, id);
    if |gc.1| == 0 then Ok(gc.0)
    else
      var merged :- CompositeFrom(b, f, gc.1, 0, gc.0.(numContours := 0), 0);
      var base := merged.1;
      if base == 0 then Ok(merged.0)
      else if base as int >= |f.hmetrics| then Err(IndexOutOfRange)
      else Ok(merged.0.(advanceWidth := f.hmetrics[base].advanceWidth, leftSideBearing := f.hmetrics[base].lsb))
  }

  /** A composite glyph is the merge, in component order, of the glyphs the
      two-argument overload loads for the component indices, starting from
      the composite's header with zero contours; its metrics come from the
      last USE_MY_METRICS component unless that index is 0. */
  lemma LoadGlyphComposite(b: seq<u8>, f: Font, c: u16, id: u16, g: TruetypeGlyph, comps: seq<GlyphComponent>)
    requires WellFormed(f) && LoadGlyph(b, f, c).Ok?
    requires GlyphIdOf(b, f, c) == Ok(id) && GlyphAndComponents(b, f, id) == Ok((g, comps)) && comps != []
    ensures var pieces := PiecesFrom(b, f, comps, 0, []);
            var base := MetricsIndex(comps, 0, 0);
            pieces.Ok? && |pieces.value| == |comps|
            && (forall k :: 0 <= k < |comps| ==> PieceGlyph(b, f, comps[k].glyphIndex) == Ok(pieces.value[k]))
            && (base == 0 || base as int < |f.hmetrics|)
            && var merged := MergeFrom(g.(numContours := 0), pieces.value, comps, 0);
               LoadGlyph(b, f, c) == Ok(if base == 0 then merged
                                        else merged.(advanceWidth := f.hmetrics[base].advanceWidth,
                                                     leftSideBearing := f.hmetrics[base].lsb))
  {
    CompositeIsMergeOfPieces(b, f, comps, 0, [], g.(numContours := 0), 0);
    PiecesAreComponentGlyphs(b, f, comps, 0, []);
  }

  // ---------------------------------------------------------------------
  // The glyph cache (get_glyph)

  /** One call of `get_glyph` on the cache `cache`: a cached codepoint is
      answered from the cache; otherwise the glyph is loaded and a nonzero id
      is stored under the codepoint, while an id-0 glyph is stored only under
      key 0 and an existing key 0 entry is answered instead. */
  function GetGlyphStep(b: seq<u8>, f: Font, cache: map<u16, TruetypeGlyph>, c: u16)
    : (r: (Result<TruetypeGlyph>, map<u16, TruetypeGlyph>))
    requires WellFormed(f)
    ensures c in cache ==> r == (Ok(cache[c]), cache)
    ensures r.0.Ok? ==> (c in r.1 && r.1[c] == r.0.value) || (0 in r.1 && r.1[0] == r.0.value)
    ensures r.0.Err? ==> r.1 == cache
    ensures cache.Keys <= r.1.Keys && forall k :: k in cache ==> r.1[k] == cache[k]
  {
    if c in cache then (Ok(cache[c]), cache)
    else
      match LoadGlyph(b, f, c)
      case Err(e) => (Err(e), cache)
      case Ok(g) =>
        if g.id != 0 then (Ok(g), cache[c := g])
        else if 0 in cache then (Ok(cache[0]), cache)
        else (Ok(g), cache[0 := g])
  }

  /** A second call with the same codepoint is answered from the cache
      without reparsing, with the same glyph and an unchanged cache. */
  lemma GetGlyphIsStable(b: seq<u8>, f: Font, cache: map<u16, TruetypeGlyph>, c: u16)
    requires WellFormed(f)
    requires GetGlyphStep(b, f, cache, c).0.Ok?
    requires c in GetGlyphStep(b, f, cache, c).1
    ensures var (r1, cache1) := GetGlyphStep(b, f, cache, c);
            GetGlyphStep(b, f, cache1, c) == (Ok(cache1[c]), cache1)
  {
  }

  /** A lookup that finds no glyph (id 0) leaves an entry under key 0, and
      every later failing lookup returns that first entry. */
  lemma GetGlyphFailuresShareKeyZero(b: seq<u8>, f: Font, cache: map<u16, TruetypeGlyph>, c: u16, c2: u16)
    requires WellFormed(f) && c !in cache
    requires LoadGlyph(b, f, c).Ok? && LoadGlyph(b, f, c).value.id == 0
    requires LoadGlyph(b, f, c2).Ok? && LoadGlyph(b, f, c2).value.id == 0
    ensures var (r1, cache1) := GetGlyphStep(b, f, cache, c);
            0 in cache1 && r1 == Ok(cache1[0])
            && (c2 !in cache1 ==> GetGlyphStep(b, f, cache1, c2) == (Ok(cache1[0]), cache1))
  {
  }
}
