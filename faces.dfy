/** The `font_face` object: the decoder state it keeps after `load`, the
    sequential reader it decodes through, and the glyph cache.  Every method
    performs the reads of the corresponding member of font_face.cpp in the
    same order through the reader, and is proved to compute what the
    functions of the TrueType module say about the file bytes. */
module Faces {
  import opened Wrappers
  import opened Util
  import opened FontTypes
  import opened TrueType

  class FontFace {
    /** `m_reader`, holding the bytes of the file. */
    const reader: VectorReader
    /** `m_ok`: the result of the last `load`. */
    var ok: bool
    /** `m_table_records`, keyed by the tag read as a big-endian number. */
    var tables: map<u32, TableRecord>
    var numGlyphs: u16
    var unitsPerEm: u16
    /** `m_hmtx.hmetrics` */
    var hmetrics: seq<LongHorMetric>
    /** `m_loca_offset32` */
    var loca: seq<u32>
    /** `m_cmap.first` and `m_cmap.second` */
    var cmapHeader: CmapHeader
    var cmap: CmapFormat4
    var segCount: u16
    /** `m_id_range_offset_from_filestart` */
    var idRangeOffsetPos: nat
    /** `m_glyphs`: the glyph cache keyed by codepoint. */
    var glyphs: map<u16, TruetypeGlyph>

    /** The bytes of the font file. */
    function Bytes(): seq<u8> {
      reader.bytes
    }

    /** The decoder state as a value. */
    function Decoded(): (f: Font)
      reads this`tables, this`numGlyphs, this`unitsPerEm, this`hmetrics, this`loca,
            this`cmapHeader, this`cmap, this`segCount, this`idRangeOffsetPos
      ensures f.tables == tables && f.hmetrics == hmetrics && f.loca == loca && f.segCount == segCount
    {
      Font(tables, numGlyphs, unitsPerEm, hmetrics, loca, cmapHeader, cmap, segCount, idRangeOffsetPos)
    }

    /** A face over the bytes the file path was read into, with nothing
        decoded yet and the reader at the start. */
    constructor (contents: seq<u8>)
      ensures Bytes() == contents && reader.position == 0 && !ok
      ensures tables == map[] && hmetrics == [] && loca == [] && glyphs == map[]
      ensures cmapHeader.encodingRecords == [] && segCount == 0
    {
      reader := new VectorReader(contents);
      ok := false;
      tables := map[];
      numGlyphs := 0;
      unitsPerEm := 0;
      hmetrics := [];
      loca := [];
      cmapHeader := CmapHeader(0, 0, []);
      cmap := EmptyFormat4;
      segCount := 0;
      idRangeOffsetPos := 0;
      glyphs := map[];
    }

    // -------------------------------------------------------------------
    // Table decoder (m_parse_truetype_file)

    /** The directory loop: `n` records from the reader's position, each
        checked for a printable tag and inserted unless its tag is already
        present. */
    method ReadDirectory(n: nat) returns (success: bool)
      requires tables == map[]
      modifies this`tables, reader
      ensures var d := DirectoryFrom(Bytes(), old(reader.position), n, map[]);
              success == d.Ok? && (success ==> tables == d.value)
    {
      var b := Bytes();
      ghost var spec := DirectoryFrom(b, reader.position, n, map[]);
      var i := 0;
      while i < n
        invariant 0 <= i <= n
        invariant DirectoryFrom(b, reader.position, n - i, tables) == spec
      {
        var p := reader.position;
        if p + 4 > |b| {
          return false;
        }
        if !(Printable(b[p]) && Printable(b[p + 1]) && Printable(b[p + 2]) && Printable(b[p + 3])) {
          return false;
        }
        var tag := reader.GetUint32();
        var checksum := reader.GetUint32();
        if checksum.Err? {
          return false;
        }
        var offset := reader.GetUint32();
        if offset.Err? {
          return false;
        }
        var length := reader.GetUint32();
        if length.Err? {
          return false;
        }
        if tag.value !in tables {
          tables := tables[tag.value := TableRecord(tag.value, checksum.value, offset.value, length.value)];
        }
        i := i + 1;
      }
      success := true;
    }

    /** The offset table: the sfnt version check, the table count and the
        three search fields, then the directory. */
    method ReadOffsetTable() returns (success: bool)
      requires tables == map[] && reader.position == 0
      modifies this`tables, reader
      ensures success == OffsetTable(Bytes()).Ok? && (success ==> tables == OffsetTable(Bytes()).value)
    {
      var sfnt := reader.GetUint32();
      if sfnt.Err? || sfnt.value != SFNT_VERSION {
        return false;
      }
      var numTables := reader.GetUint16();
      if numTables.Err? {
        return false;
      }
      var searchRange := reader.GetUint16();
      if searchRange.Err? {
        return false;
      }
      var entrySelector := reader.GetUint16();
      if entrySelector.Err? {
        return false;
      }
      var rangeShift := reader.GetUint16();
      if rangeShift.Err? {
        return false;
      }
      success := ReadDirectory(numTables.value as nat);
    }

    /** `n` long horizontal metrics from the reader's position, appended to
        `m_hmtx.hmetrics`. */
    method ReadLongMetrics(n: nat) returns (success: bool)
      requires hmetrics == []
      modifies this`hmetrics, reader
      ensures var m := MetricsFrom(Bytes(), old(reader.position), n, []);
              success == m.Ok? && (success ==> hmetrics == m.value)
    {
      var b := Bytes();
      ghost var spec := MetricsFrom(b, reader.position, n, []);
      var i: nat := 0;
      while i < n
        invariant i <= n
        invariant MetricsFrom(b, reader.position, n - i, hmetrics) == spec
      {
        var advanceWidth := reader.GetUint16();
        if advanceWidth.Err? {
          return false;
        }
        var lsb := reader.GetInt16();
        if lsb.Err? {
          return false;
        }
        hmetrics := hmetrics + [LongHorMetric(advanceWidth.value, lsb.value)];
        i := i + 1;
      }
      success := true;
    }

    /** The hmtx tail: `count` more records, each a copy of the one before
        it, so all of them copy the last long metric. */
    method RepeatLastMetric(count: nat)
      requires |hmetrics| > 0
      modifies this`hmetrics
      ensures var h := old(hmetrics); hmetrics == h + seq(count, _ => h[|h| - 1])
    {
      ghost var long := hmetrics;
      var n := |hmetrics|;
      var j: nat := 0;
      while j < count
        invariant j <= count && |hmetrics| == n + j
        invariant hmetrics[..n] == long
        invariant forall k :: n <= k < |hmetrics| ==> hmetrics[k] == long[n - 1]
      {
        hmetrics := hmetrics + [hmetrics[n - 1 + j]];
        j := j + 1;
      }
      assert hmetrics == long + seq(count, _ => long[n - 1]);
    }

    /** The hmtx array: the long metrics, then (when there are at least as
        many glyphs) a copy of the last one for every remaining glyph. */
    method ReadHmtx(numGlyphs': u16, numHMetrics: u16) returns (success: bool)
      requires hmetrics == []
      modifies this`hmetrics, reader
      ensures var h := Hmtx(Bytes(), old(reader.position), numGlyphs', numHMetrics);
              success == h.Ok? && (success ==> hmetrics == h.value)
    {
      success := ReadLongMetrics(numHMetrics as nat);
      if !success {
        return;
      }
      if numGlyphs' >= numHMetrics {
        if numHMetrics == 0 {
          success := numGlyphs' == 0;
        } else {
          RepeatLastMetric((numGlyphs' - numHMetrics) as nat);
        }
      }
    }

    /** `numGlyphs + 1` loca offsets, short ones doubled, appended to
        `m_loca_offset32`; a format other than 0 or 1 is rejected. */
    method ReadLoca(numGlyphs': u16, indexToLocFormat: i16) returns (success: bool)
      requires loca == []
      modifies this`loca, reader
      ensures var l := Loca(Bytes(), old(reader.position), numGlyphs', indexToLocFormat);
              success == l.Ok? && (success ==> loca == l.value)
    {
      var b := Bytes();
      var n: nat := numGlyphs' as nat + 1;
      if indexToLocFormat == 0 {
        ghost var spec := LocaShortFrom(b, reader.position, n, []);
        var i: nat := 0;
        while i < n
          invariant i <= n
          invariant LocaShortFrom(b, reader.position, n - i, loca) == spec
        {
          var v := reader.GetUint16();
          if v.Err? {
            return false;
          }
          var doubled: u32 := 2 * v.value as int;
          loca := loca + [doubled];
          i := i + 1;
        }
      } else if indexToLocFormat == 1 {
        ghost var spec := LocaLongFrom(b, reader.position, n, []);
        var i: nat := 0;
        while i < n
          invariant i <= n
          invariant LocaLongFrom(b, reader.position, n - i, loca) == spec
        {
          var v := reader.GetUint32();
          if v.Err? {
            return false;
          }
          loca := loca + [v.value];
          i := i + 1;
        }
      } else {
        return false;
      }
      success := true;
    }

    /** The maxp fields: the version check, numGlyphs (stored) and
        maxComponentDepth. */
    method ReadMaxp() returns (r: Result<u16>)
      modifies this`numGlyphs, reader
      ensures r == MaxpNumGlyphs(Bytes(), tables)
      ensures r.Ok? ==> numGlyphs == r.value
    {
      reader.SetPosition(Record(tables, TAG_MAXP).offset as nat);
      var maxpVersion := reader.GetUint32();
      if maxpVersion.Err? {
        return Err(maxpVersion.error);
      }
      if maxpVersion.value != MAXP_VERSION {
        return Err(BadMaxpVersion);
      }
      var glyphCount := reader.GetUint16();
      if glyphCount.Err? {
        return Err(glyphCount.error);
      }
      numGlyphs := glyphCount.value;
      reader.IncrementPosition(24);
      var maxComponentDepth := reader.GetUint16();
      if maxComponentDepth.Err? {
        return Err(maxComponentDepth.error);
      }
      r := Ok(numGlyphs);
    }

    /** The fields of maxp, hhea and head the decoder needs: numGlyphs and
        unitsPerEm are stored, numberOfHMetrics and indexToLocFormat are
        returned. */
    method ReadMetricsFields() returns (r: Result<Fields>)
      modifies this`numGlyphs, this`unitsPerEm, reader
      ensures r == MetricsFields(Bytes(), tables)
      ensures r.Ok? ==> numGlyphs == r.value.numGlyphs && unitsPerEm == r.value.unitsPerEm
    {
      var glyphCount := ReadMaxp();
      if glyphCount.Err? {
        return Err(glyphCount.error);
      }
      r := ReadHheaHeadFields(glyphCount.value);
    }

    /** numberOfHMetrics from hhea, then unitsPerEm (stored) and
        indexToLocFormat from head. */
    method ReadHheaHeadFields(glyphCount: u16) returns (r: Result<Fields>)
      modifies this`unitsPerEm, reader
      ensures r == HheaHeadFields(Bytes(), tables, glyphCount)
      ensures r.Ok? ==> unitsPerEm == r.value.unitsPerEm
    {
      reader.SetPosition(Record(tables, TAG_HHEA).offset as nat);
      reader.IncrementPosition(34);
      var numHMetrics := reader.GetUint16();
      if numHMetrics.Err? {
        return Err(numHMetrics.error);
      }
      reader.SetPosition(Record(tables, TAG_HEAD).offset as nat);
      reader.IncrementPosition(18);
      var upem := reader.GetUint16();
      if upem.Err? {
        return Err(upem.error);
      }
      unitsPerEm := upem.value;
      reader.IncrementPosition(30);
      var indexToLocFormat := reader.GetInt16();
      if indexToLocFormat.Err? {
        return Err(indexToLocFormat.error);
      }
      r := Ok(Fields(glyphCount, numHMetrics.value, unitsPerEm, indexToLocFormat.value));
    }

    /** The fields, then hmtx and loca. */
    method ReadMetricsTables() returns (success: bool)
      requires hmetrics == [] && loca == []
      modifies this`numGlyphs, this`unitsPerEm, this`hmetrics, this`loca, reader
      ensures var m := ParseMetrics(Bytes(), tables);
              success == m.Ok? && (success ==> Metrics(numGlyphs, unitsPerEm, hmetrics, loca) == m.value)
    {
      var h := ReadMetricsFields();
      if h.Err? {
        return false;
      }
      reader.SetPosition(Record(tables, TAG_HMTX).offset as nat);
      success := ReadHmtx(numGlyphs, h.value.numHMetrics);
      if !success {
        return;
      }
      reader.SetPosition(Record(tables, TAG_LOCA).offset as nat);
      success := ReadLoca(numGlyphs, h.value.indexToLocFormat);
    }

    /** `n` big-endian `uint16` values from the reader's position. */
    method ReadU16s(n: nat) returns (r: Result<seq<u16>>)
      modifies reader
      ensures r == U16ArrayFrom(Bytes(), old(reader.position), n, [])
      ensures r.Ok? ==> reader.position == old(reader.position) + 2 * n
    {
      var b := Bytes();
      ghost var spec := U16ArrayFrom(b, reader.position, n, []);
      var values: seq<u16> := [];
      var i: nat := 0;
      while i < n
        invariant i <= n && reader.position == old(reader.position) + 2 * i
        invariant U16ArrayFrom(b, reader.position, n - i, values) == spec
      {
        var v := reader.GetUint16();
        if v.Err? {
          return Err(v.error);
        }
        values := values + [v.value];
        i := i + 1;
      }
      r := Ok(values);
    }

    /** `n` big-endian `int16` values from the reader's position. */
    method ReadI16s(n: nat) returns (r: Result<seq<i16>>)
      modifies reader
      ensures r == I16ArrayFrom(Bytes(), old(reader.position), n, [])
      ensures r.Ok? ==> reader.position == old(reader.position) + 2 * n
    {
      var b := Bytes();
      ghost var spec := I16ArrayFrom(b, reader.position, n, []);
      var values: seq<i16> := [];
      var i: nat := 0;
      while i < n
        invariant i <= n && reader.position == old(reader.position) + 2 * i
        invariant I16ArrayFrom(b, reader.position, n - i, values) == spec
      {
        var v := reader.GetInt16();
        if v.Err? {
          return Err(v.error);
        }
        values := values + [v.value];
        i := i + 1;
      }
      r := Ok(values);
    }

    /** The encoding records of the cmap header, appended to
        `m_cmap.first.encoding_records`. */
    method ReadEncodings(n: nat) returns (success: bool)
      requires cmapHeader.encodingRecords == []
      modifies this`cmapHeader, reader
      ensures var e := EncodingsFrom(Bytes(), old(reader.position), n, []);
              success == e.Ok? && (success ==> cmapHeader.encodingRecords == e.value)
      ensures cmapHeader.version == old(cmapHeader.version) && cmapHeader.numTables == old(cmapHeader.numTables)
    {
      var b := Bytes();
      ghost var spec := EncodingsFrom(b, reader.position, n, []);
      var i: nat := 0;
      while i < n
        invariant i <= n
        invariant EncodingsFrom(b, reader.position, n - i, cmapHeader.encodingRecords) == spec
        invariant cmapHeader.version == old(cmapHeader.version) && cmapHeader.numTables == old(cmapHeader.numTables)
      {
        var platform := reader.GetUint16();
        if platform.Err? {
          return false;
        }
        var encoding := reader.GetUint16();
        if encoding.Err? {
          return false;
        }
        var offset := reader.GetUint32();
        if offset.Err? {
          return false;
        }
        cmapHeader := cmapHeader.(encodingRecords := cmapHeader.encodingRecords + [CmapEncoding(platform.value, encoding.value, offset.value)]);
        i := i + 1;
      }
      success := true;
    }

    /** The four segment arrays from the reader's position: endCode, the
        reserved pad, startCode, idDelta and idRangeOffset. */
    method ReadSegmentArrays(s: nat) returns (r: Result<(seq<u16>, seq<u16>, seq<i16>, seq<u16>)>)
      modifies reader
      ensures r == SegmentArrays(Bytes(), old(reader.position), s)
    {
      var ends := ReadU16s(s);
      if ends.Err? {
        return Err(ends.error);
      }
      reader.IncrementPosition(2);
      var starts := ReadU16s(s);
      if starts.Err? {
        return Err(starts.error);
      }
      var deltas := ReadI16s(s);
      if deltas.Err? {
        return Err(deltas.error);
      }
      var ranges := ReadU16s(s);
      if ranges.Err? {
        return Err(ranges.error);
      }
      r := Ok((ends.value, starts.value, deltas.value, ranges.value));
    }

    /** segCountX2 of the subtable at `q`, after the skipped format, length
        and language; the reader is left past the three search fields. */
    method ReadSegCountX2(q: nat) returns (x2: Result<u16>)
      modifies reader
      ensures x2 == U16At(Bytes(), q + 6)
      ensures x2.Ok? ==> reader.position == q + 14
    {
      reader.SetPosition(q);
      reader.IncrementPosition(6);
      x2 := reader.GetUint16();
      if x2.Ok? {
        reader.IncrementPosition(6);
      }
    }

    /** A format 4 subtable at `q`: format, length and language skipped,
        segCountX2, the search fields skipped, then the segment arrays; the
        file position of the idRangeOffset array is recorded. */
    method ReadFormat4(q: nat) returns (r: Result<Bmp>)
      modifies reader
      ensures r == Format4At(Bytes(), q)
    {
      var x2 := ReadSegCountX2(q);
      if x2.Err? {
        return Err(x2.error);
      }
      var s: u16 := x2.value / 2;
      var arrays := ReadSegmentArrays(s as nat);
      if arrays.Err? {
        return Err(arrays.error);
      }
      var rangesAt := q + 16 + 6 * s as nat;
      r := Ok(Bmp(CmapFormat4(x2.value, arrays.value.0, arrays.value.1, arrays.value.2, arrays.value.3), s, rangesAt));
    }

    /** The subtable loop: the reader is positioned at every record's
        subtable, and every platform 3 / encoding 1 record's format 4
        subtable replaces the one stored before. */
    method ReadBmpSubtables(cmapOffset: nat) returns (success: bool)
      modifies this`cmap, this`segCount, this`idRangeOffsetPos, reader
      ensures var l := LastBmpFrom(Bytes(), cmapOffset, cmapHeader.encodingRecords, 0, None);
              success == (l.Ok? && l.value.Some?)
              && (success ==> Bmp(cmap, segCount, idRangeOffsetPos) == l.value.value)
    {
      var b := Bytes();
      var recs := cmapHeader.encodingRecords;
      ghost var spec := LastBmpFrom(b, cmapOffset, recs, 0, None);
      var found := false;
      var i: nat := 0;
      while i < |recs|
        invariant i <= |recs|
        invariant LastBmpFrom(b, cmapOffset, recs, i, if found then Some(Bmp(cmap, segCount, idRangeOffsetPos)) else None) == spec
      {
        reader.SetPosition(cmapOffset + recs[i].offset as nat);
        if IsUnicodeBmp(recs[i]) {
          found := true;
          var f := ReadFormat4(cmapOffset + recs[i].offset as nat);
          if f.Err? {
            return false;
          }
          cmap := f.value.format;
          segCount := f.value.segCount;
          idRangeOffsetPos := f.value.idRangeOffsetPos;
        }
        i := i + 1;
      }
      success := found;
    }

    /** The cmap header and its encoding records. */
    method ReadCmapHeader(cmapOffset: nat) returns (success: bool)
      modifies this`cmapHeader, reader
      ensures var h := CmapHeaderAt(Bytes(), cmapOffset);
              success == h.Ok? && (success ==> cmapHeader == h.value)
    {
      reader.SetPosition(cmapOffset);
      var version := reader.GetUint16();
      if version.Err? {
        return false;
      }
      var numSubtables := reader.GetUint16();
      if numSubtables.Err? {
        return false;
      }
      cmapHeader := CmapHeader(version.value, numSubtables.value, []);
      success := ReadEncodings(numSubtables.value as nat);
    }

    /** The cmap header and its records, then the subtables. */
    method ReadCmap() returns (success: bool)
      modifies this`cmapHeader, this`cmap, this`segCount, this`idRangeOffsetPos, reader
      ensures var c := ParseCmap(Bytes(), Record(tables, TAG_CMAP).offset as nat);
              success == c.Ok? && (success ==> (cmapHeader, Bmp(cmap, segCount, idRangeOffsetPos)) == c.value)
    {
      var cmapOffset := Record(tables, TAG_CMAP).offset as nat;
      success := ReadCmapHeader(cmapOffset);
      if !success {
        return;
      }
      success := ReadBmpSubtables(cmapOffset);
    }

    /** `load` on the bytes of the file (`m_parse_truetype_file`): the
        face accepts the file exactly when the decoder does, and then holds
        what the decoder computes. */
    method Load() returns (success: bool)
      requires reader.position == 0 && tables == map[] && hmetrics == [] && loca == []
      modifies this`ok, this`tables, this`numGlyphs, this`unitsPerEm, this`hmetrics, this`loca,
               this`cmapHeader, this`cmap, this`segCount, this`idRangeOffsetPos, reader
      ensures success == ok == ParseFont(Bytes()).Ok?
      ensures success ==> ParseFont(Bytes()).value == Font(tables, numGlyphs, unitsPerEm, hmetrics, loca,
                                                           cmapHeader, cmap, segCount, idRangeOffsetPos)
    {
      success := ReadOffsetTable();
      if success {
        success := ReadTables();
      }
      ok := success;
    }

    /** The tables after the directory: maxp, hhea, head, hmtx, loca, then
        cmap. */
    method ReadTables() returns (success: bool)
      requires hmetrics == [] && loca == []
      modifies this`numGlyphs, this`unitsPerEm, this`hmetrics, this`loca,
               this`cmapHeader, this`cmap, this`segCount, this`idRangeOffsetPos, reader
      ensures var m := ParseMetrics(Bytes(), tables);
              var c := ParseCmap(Bytes(), Record(tables, TAG_CMAP).offset as nat);
              success == (m.Ok? && c.Ok?)
              && (success ==> Metrics(numGlyphs, unitsPerEm, hmetrics, loca) == m.value
                              && (cmapHeader, Bmp(cmap, segCount, idRangeOffsetPos)) == c.value)
    {
      success := ReadMetricsTables();
      if success {
        success := ReadCmap();
      }
    }

    // -------------------------------------------------------------------
    // Glyph loader

    /** `m_get_truetype_glyph_id`: every segment is visited and each one
        covering the codepoint overrides the id found so far. */
    method GlyphId(c: u16) returns (r: Result<u16>)
      requires WellFormed(Decoded())
      ensures r == GlyphIdOf(Bytes(), Decoded(), c)
    {
      var b := Bytes();
      ghost var f := Decoded();
      var id: u16 := 0;
      var i: nat := 0;
      while i < segCount as nat
        invariant i <= segCount as nat
        invariant GlyphIdFrom(b, f, c, i, id) == GlyphIdOf(b, f, c)
        decreases segCount as nat - i
      {
        if cmap.startCode[i] <= c <= cmap.endCode[i] {
          if cmap.idRangeOffset[i] != 0 {
            var at := idRangeOffsetPos + 2 * i + cmap.idRangeOffset[i] as nat + 2 * (c - cmap.startCode[i]) as nat;
            var g := U16At(b, at);
            if g.Err? {
              return Err(g.error);
            }
            id := if g.value != 0 then U16(g.value as int + cmap.idDelta[i] as int) else 0;
          } else {
            id := U16(c as int + cmap.idDelta[i] as int);
          }
        }
        i := i + 1;
      }
      r := Ok(id);
    }

    /** The contour count and bounding box, read in order from `at`. */
    method ReadBox(at: nat) returns (r: Result<(i16, i16, i16, i16, i16)>)
      requires reader.position == at
      modifies reader
      ensures r == BoxAt(Bytes(), at)
      ensures r.Ok? ==> reader.position == at + 10
    {
      var nc := reader.GetInt16();
      if nc.Err? {
        return Err(nc.error);
      }
      var xMin := reader.GetInt16();
      if xMin.Err? {
        return Err(xMin.error);
      }
      var yMin := reader.GetInt16();
      if yMin.Err? {
        return Err(yMin.error);
      }
      var xMax := reader.GetInt16();
      if xMax.Err? {
        return Err(xMax.error);
      }
      var yMax := reader.GetInt16();
      if yMax.Err? {
        return Err(yMax.error);
      }
      r := Ok((nc.value, xMin.value, yMin.value, xMax.value, yMax.value));
    }

    /** `m_get_truetype_simple_glyph_header_data`: the outline test, the
        reader moved to the glyph's offset in glyf, and the header fields
        read when there is an outline. */
    method ReadHeader(g: TruetypeGlyph) returns (r: Result<Header>)
      modifies reader
      ensures r == GlyphHeader(Bytes(), old(Decoded()), g)
      ensures r.Ok? ==> reader.position == r.value.next
    {
      if g.id as int >= |loca| {
        return Err(IndexOutOfRange);
      }
      var present := if g.id as int + 1 >= |loca| then Record(tables, TAG_GLYF).length != loca[g.id]
                     else loca[g.id] != loca[g.id + 1];
      var at := Record(tables, TAG_GLYF).offset as nat + loca[g.id] as nat;
      reader.SetPosition(at);
      if present {
        var box := ReadBox(at);
        if box.Err? {
          return Err(box.error);
        }
        if g.id as int >= |hmetrics| {
          return Err(IndexOutOfRange);
        }
        var m := hmetrics[g.id];
        r := Ok(Header(true, g.(numContours := box.value.0, xMin := box.value.1, yMin := box.value.2, xMax := box.value.3,
                                yMax := box.value.4, advanceWidth := m.advanceWidth, leftSideBearing := m.lsb), at + 10));
      } else {
        if g.id as int >= |hmetrics| {
          return Err(IndexOutOfRange);
        }
        r := Ok(Header(false, g.(advanceWidth := hmetrics[g.id].advanceWidth), at));
      }
    }

    /** `n` bytes from the reader's position. */
    method ReadBytes(n: nat) returns (r: Result<seq<u8>>)
      modifies reader
      ensures r == BytesFrom(Bytes(), old(reader.position), n, [])
      ensures r.Ok? ==> reader.position == old(reader.position) + n
    {
      var b := Bytes();
      ghost var spec := BytesFrom(b, reader.position, n, []);
      var values: seq<u8> := [];
      var i: nat := 0;
      while i < n
        invariant i <= n && reader.position == old(reader.position) + i
        invariant BytesFrom(b, reader.position, n - i, values) == spec
      {
        var v := reader.GetUint8();
        if v.Err? {
          return Err(v.error);
        }
        values := values + [v.value];
        i := i + 1;
      }
      r := Ok(values);
    }

    /** The flags one flag byte stands for: with REPEAT_FLAG the count
        byte after it, and the flag once per repeat and once more for
        itself. */
    method ReadFlagRun() returns (r: Result<seq<GlyphFlags>>)
      modifies reader
      ensures var s := FlagRun(Bytes(), old(reader.position));
              r.Ok? == s.Ok? && (r.Ok? ==> r.value == s.value.0 && reader.position == s.value.1)
              && (r.Err? ==> r.error == s.error)
    {
      var flag := reader.GetUint8();
      if flag.Err? {
        return Err(flag.error);
      }
      if HasBit(flag.value, REPEAT_FLAG as nat) {
        var count := reader.GetUint8();
        if count.Err? {
          return Err(count.error);
        }
        var point := FlagsOf(flag.value, count.value);
        var run: seq<GlyphFlags> := [];
        var v: nat := 0;
        while v < count.value
          invariant v <= count.value && run == Repeat(point, v)
        {
          run := run + [point];
          v := v + 1;
        }
        run := run + [point];
        assert run == Repeat(point, count.value as nat + 1);
        r := Ok(run);
      } else {
        r := Ok([FlagsOf(flag.value, 0)]);
      }
    }

    /** The flag loop of a simple glyph for `n` points: each flag pushed
        counts as one point. */
    method ReadFlags(n: nat) returns (r: Result<seq<GlyphFlags>>)
      modifies reader
      ensures var s := FlagsFrom(Bytes(), old(reader.position), 0, n, []);
              r.Ok? == s.Ok? && (r.Ok? ==> r.value == s.value.0 && reader.position == s.value.1)
              && (r.Err? ==> r.error == s.error)
    {
      var b := Bytes();
      ghost var spec := FlagsFrom(b, reader.position, 0, n, []);
      var flags: seq<GlyphFlags> := [];
      var done: nat := 0;
      while done < n
        invariant done == |flags|
        invariant FlagsFrom(b, reader.position, done, n, flags) == spec
        decreases n - done
      {
        var run := ReadFlagRun();
        if run.Err? {
          return Err(run.error);
        }
        flags := flags + run.value;
        done := done + |run.value|;
      }
      r := Ok(flags);
    }

    /** The delta of one coordinate, read by its flag as a positive or
        negative byte, a repeat of the previous coordinate or an int16. */
    method ReadDelta(fl: GlyphFlags, isX: bool) returns (r: Result<int>)
      modifies reader
      ensures var d := CoordDelta(Bytes(), old(reader.position), fl, isX);
              r.Ok? == d.Ok? && (r.Ok? ==> r.value == d.value.0 && reader.position == d.value.1)
              && (r.Err? ==> r.error == d.error)
    {
      var short := if isX then fl.xShortVector else fl.yShortVector;
      var same := if isX then fl.xIsSameOrPositive else fl.yIsSameOrPositive;
      if short {
        var v := reader.GetUint8();
        if v.Err? {
          return Err(v.error);
        }
        r := if same then Ok(v.value as int) else Ok(-(v.value as int));
      } else if same {
        r := Ok(0);
      } else {
        var v := reader.GetInt16();
        if v.Err? {
          return Err(v.error);
        }
        r := Ok(v.value as int);
      }
    }

    /** The coordinate loop of one axis for `n` points: each coordinate is
        read by its flag as a positive or negative byte, a repeat of the
        previous coordinate or an int16 delta, and added to the previous
        coordinate. */
    method ReadCoords(flags: seq<GlyphFlags>, isX: bool, n: nat) returns (r: Result<seq<i16>>)
      requires n <= |flags|
      modifies reader
      ensures var s := CoordsFrom(Bytes(), old(reader.position), flags, isX, 0, n, []);
              r.Ok? == s.Ok? && (r.Ok? ==> r.value == s.value.0 && reader.position == s.value.1)
              && (r.Err? ==> r.error == s.error)
    {
      var b := Bytes();
      ghost var spec := CoordsFrom(b, reader.position, flags, isX, 0, n, []);
      var coords: seq<i16> := [];
      var k: nat := 0;
      while k < n
        invariant k <= n && |coords| == k
        invariant CoordsFrom(b, reader.position, flags, isX, k, n, coords) == spec
      {
        var d := ReadDelta(flags[k], isX);
        if d.Err? {
          return Err(d.error);
        }
        var prev: i16 := if k > 0 then coords[k - 1] else 0;
        var x := I16(prev as int + d.value);
        coords := coords + [x];
        k := k + 1;
      }
      r := Ok(coords);
    }

    /** The simple description after the end points: instruction length and
        instructions, flags, x and y coordinates. */
    method ReadSimplePoints(g: TruetypeGlyph) returns (r: Result<TruetypeGlyph>)
      modifies reader
      ensures r == SimplePoints(Bytes(), g, old(reader.position))
    {
      var len := reader.GetUint16();
      if len.Err? {
        return Err(len.error);
      }
      var instructions: seq<u8> := [];
      if len.value != 0 {
        var ins := ReadBytes(len.value as nat);
        if ins.Err? {
          return Err(ins.error);
        }
        instructions := ins.value;
      }
      r := ReadOutlinePoints(g.(instructionLen := len.value, instructions := instructions));
    }

    /** The flags, then the x and the y coordinates of `g.numPoints`
        points. */
    method ReadOutlinePoints(g: TruetypeGlyph) returns (r: Result<TruetypeGlyph>)
      modifies reader
      ensures r == OutlinePoints(Bytes(), g, old(reader.position))
    {
      var flags := ReadFlags(g.numPoints as nat);
      if flags.Err? {
        return Err(flags.error);
      }
      var xs := ReadCoords(flags.value, true, g.numPoints as nat);
      if xs.Err? {
        return Err(xs.error);
      }
      var ys := ReadCoords(flags.value, false, g.numPoints as nat);
      if ys.Err? {
        return Err(ys.error);
      }
      r := Ok(g.(flags := flags.value, xCoords := xs.value, yCoords := ys.value));
    }

    /** `m_get_truetype_simple_glyph_data`: the contour end points, the
        point count from the largest of them, then the points. */
    method ReadSimpleData(g: TruetypeGlyph) returns (r: Result<TruetypeGlyph>)
      requires g.flags == [] && g.xCoords == [] && g.yCoords == [] && g.endPtsOfContours == []
      modifies reader
      ensures r == SimpleGlyphData(Bytes(), g, old(reader.position))
    {
      ghost var p := reader.position;
      var ended := ReadContourEnds(g);
      if ended.Err? {
        return Err(ended.error);
      }
      assert SimpleGlyphData(Bytes(), g, p) == SimplePoints(Bytes(), ended.value, reader.position);
      r := ReadSimplePoints(ended.value);
    }

    /** The contour end points and the point count one past the largest of
        them (`std::max_element`). */
    method ReadContourEnds(g: TruetypeGlyph) returns (r: Result<TruetypeGlyph>)
      modifies reader
      ensures r == ContourEnds(Bytes(), g, old(reader.position))
      ensures r.Ok? ==> reader.position == old(reader.position) + 2 * g.numContours as nat
    {
      if g.numContours < 0 {
        return Err(OutOfBounds);
      }
      var ends := ReadU16s(g.numContours as nat);
      if ends.Err? {
        return Err(ends.error);
      }
      if |ends.value| == 0 {
        return Err(NoContourEndPoints);
      }
      r := Ok(g.(endPtsOfContours := ends.value, numPoints := U16(MaxOf(ends.value) as int + 1)));
    }

    /** The two arguments of a component record, chosen by
        ARG_1_AND_2_ARE_WORDS and ARGS_ARE_XY_VALUES; signed byte offsets are
        taken straight from the byte vector and skipped. */
    method ReadComponentArgs(c: GlyphComponent) returns (r: Result<GlyphComponent>)
      modifies reader
      ensures var s := ComponentArgs(Bytes(), old(reader.position), c);
              r.Ok? == s.Ok? && (r.Ok? ==> r.value == s.value.0 && reader.position == s.value.1)
              && (r.Err? ==> r.error == s.error)
    {
      var words := HasBit(c.flag, ARG_1_AND_2_ARE_WORDS as nat);
      var xy := HasBit(c.flag, ARGS_ARE_XY_VALUES as nat);
      if words && xy {
        var a1 := reader.GetInt16();
        if a1.Err? {
          return Err(a1.error);
        }
        var a2 := reader.GetInt16();
        if a2.Err? {
          return Err(a2.error);
        }
        r := Ok(c.(xyArg1 := a1.value, xyArg2 := a2.value));
      } else if words {
        var a1 := reader.GetUint16();
        if a1.Err? {
          return Err(a1.error);
        }
        var a2 := reader.GetUint16();
        if a2.Err? {
          return Err(a2.error);
        }
        r := Ok(c.(ptArg1 := a1.value, ptArg2 := a2.value));
      } else if xy {
        var b := Bytes();
        var p := reader.position;
        if p + 2 > |b| {
          return Err(OutOfBounds);
        }
        r := Ok(c.(xyArg1 := SignExtend8(b[p]), xyArg2 := SignExtend8(b[p + 1])));
        reader.IncrementPosition(2);
      } else {
        var a1 := reader.GetUint8();
        if a1.Err? {
          return Err(a1.error);
        }
        var a2 := reader.GetUint8();
        if a2.Err? {
          return Err(a2.error);
        }
        r := Ok(c.(ptArg1 := a1.value, ptArg2 := a2.value));
      }
    }

    /** The optional scale fields of a component record: one scale, an x and
        a y scale, or a 2x2 matrix. */
    method ReadComponentScales(c: GlyphComponent) returns (r: Result<GlyphComponent>)
      requires reader.position <= |Bytes()|
      modifies reader
      ensures var s := ComponentScales(Bytes(), old(reader.position), c);
              r.Ok? == s.Ok? && (r.Ok? ==> r.value == s.value.0 && reader.position == s.value.1)
              && (r.Err? ==> r.error == s.error)
    {
      if HasBit(c.flag, WE_HAVE_A_SCALE as nat) {
        var s := reader.GetInt16();
        if s.Err? {
          return Err(s.error);
        }
        r := Ok(c.(scale := U16(s.value)));
      } else if HasBit(c.flag, WE_HAVE_AN_X_AND_Y_SCALE as nat) {
        var sx := reader.GetInt16();
        if sx.Err? {
          return Err(sx.error);
        }
        var sy := reader.GetInt16();
        if sy.Err? {
          return Err(sy.error);
        }
        r := Ok(c.(xScale := U16(sx.value), yScale := U16(sy.value)));
      } else if HasBit(c.flag, WE_HAVE_A_TWO_BY_TWO as nat) {
        var sx := reader.GetInt16();
        if sx.Err? {
          return Err(sx.error);
        }
        var s01 := reader.GetInt16();
        if s01.Err? {
          return Err(s01.error);
        }
        var s10 := reader.GetInt16();
        if s10.Err? {
          return Err(s10.error);
        }
        var sy := reader.GetInt16();
        if sy.Err? {
          return Err(sy.error);
        }
        r := Ok(c.(xScale := U16(sx.value), scale01 := U16(s01.value), scale10 := U16(s10.value), yScale := U16(sy.value)));
      } else {
        r := Ok(c);
      }
    }

    /** One component record: flag, glyph index, arguments, scales and the
        flag bits kept as booleans. */
    method ReadComponent() returns (r: Result<GlyphComponent>)
      modifies reader
      ensures var s := ComponentAt(Bytes(), old(reader.position));
              r.Ok? == s.Ok? && (r.Ok? ==> r.value == s.value.0 && reader.position == s.value.1)
              && (r.Err? ==> r.error == s.error)
    {
      ghost var p := reader.position;
      var flag := reader.GetUint16();
      if flag.Err? {
        return Err(flag.error);
      }
      var index := reader.GetUint16();
      if index.Err? {
        return Err(index.error);
      }
      var args := ReadComponentArgs(NewComponent(flag.value, index.value));
      if args.Err? {
        return Err(args.error);
      }
      var scaled := ReadComponentScales(args.value);
      if scaled.Err? {
        return Err(scaled.error);
      }
      r := Ok(WithFlagBits(scaled.value));
    }

    /** `m_get_truetype_component_glyph_data`: records are read while the
        previous one had MORE_COMPONENTS. */
    method ReadComponents() returns (r: Result<seq<GlyphComponent>>)
      modifies reader
      ensures var s := ComponentsFrom(Bytes(), old(reader.position), []);
              r.Ok? == s.Ok? && (r.Ok? ==> r.value == s.value.0 && reader.position == s.value.1)
              && (r.Err? ==> r.error == s.error)
    {
      var b := Bytes();
      ghost var spec := ComponentsFrom(b, reader.position, []);
      var components: seq<GlyphComponent> := [];
      var more := true;
      while more
        invariant more ==> ComponentsFrom(b, reader.position, components) == spec
        invariant !more ==> spec == Ok((components, reader.position))
        decreases if more && reader.position <= |b| then |b| - reader.position + 1 else 0
      {
        var c := ReadComponent();
        if c.Err? {
          return Err(c.error);
        }
        more := MoreComponents(c.value);
        components := components + [c.value];
      }
      r := Ok(components);
    }

    /** The two-argument `m_get_truetype_glyph_data_by_id`: the header,
        then the simple description whenever there is an outline. */
    method ReadPiece(id: u16) returns (r: Result<TruetypeGlyph>)
      modifies reader
      ensures r == PieceGlyph(Bytes(), Decoded(), id)
    {
      var h := ReadHeader(EmptyGlyph(id));
      if h.Err? {
        return Err(h.error);
      }
      if !h.value.present {
        return Ok(h.value.glyph);
      }
      r := ReadSimpleData(h.value.glyph);
    }

    /** The three-argument overload: a negative contour count reads the
        component records instead of the simple description. */
    method ReadGlyphAndComponents(id: u16) returns (r: Result<(TruetypeGlyph, seq<GlyphComponent>)>)
      modifies reader
      ensures r == GlyphAndComponents(Bytes(), Decoded(), id)
    {
      var h := ReadHeader(EmptyGlyph(id));
      if h.Err? {
        return Err(h.error);
      }
      if !h.value.present {
        return Ok((h.value.glyph, []));
      }
      if h.value.glyph.numContours >= 0 {
        var g := ReadSimpleData(h.value.glyph);
        if g.Err? {
          return Err(g.error);
        }
        r := Ok((g.value, []));
      } else {
        var cs := ReadComponents();
        if cs.Err? {
          return Err(cs.error);
        }
        r := Ok((h.value.glyph, cs.value));
      }
    }

    /** The offset loop of the merge on one axis: every coordinate moved by
        `d`, with int16 wrap-around. */
    static method MovePoints(s: seq<i16>, d: int) returns (r: seq<i16>)
      ensures r == Translate(s, d)
    {
      r := s;
      var i: nat := 0;
      while i < |s|
        invariant i <= |s| && |r| == |s|
        invariant forall k :: 0 <= k < i ==> r[k] == I16(s[k] as int + d)
        invariant forall k :: i <= k < |s| ==> r[k] == s[k]
      {
        r := r[i := I16(r[i] as int + d)];
        i := i + 1;
      }
    }

    /** The end point loop of the merge: each end point of the piece shifted
        by `shift`, with uint16 wrap-around, and appended. */
    static method AppendEndPoints(ends: seq<u16>, pieceEnds: seq<u16>, shift: int) returns (r: seq<u16>)
      ensures r == ends + ShiftEndPoints(pieceEnds, shift)
    {
      r := ends;
      var j: nat := 0;
      while j < |pieceEnds|
        invariant j <= |pieceEnds| && |r| == |ends| + j
        invariant forall k :: 0 <= k < |ends| ==> r[k] == ends[k]
        invariant forall k :: 0 <= k < j ==> r[|ends| + k] == U16(pieceEnds[k] as int + shift)
      {
        r := r + [U16(pieceEnds[j] as int + shift)];
        j := j + 1;
      }
    }

    /** One step of the composite merge: the piece's points are moved by the
        component's xy arguments when either is nonzero, its end points are
        shifted by the points merged so far and appended, the counts are
        added with 16-bit wrap-around, and its points are appended. */
    method MergePiece(g: TruetypeGlyph, piece: TruetypeGlyph, c: GlyphComponent) returns (r: TruetypeGlyph)
      requires OutlineShape(piece)
      ensures r == AppendPiece(g, piece, c)
    {
      var n := piece.numPoints as nat;
      var xs := piece.xCoords;
      var ys := piece.yCoords;
      if c.xyArg1 != 0 || c.xyArg2 != 0 {
        xs := MovePoints(xs, c.xyArg1 as int);
        ys := MovePoints(ys, c.xyArg2 as int);
      }
      var ends := AppendEndPoints(g.endPtsOfContours, piece.endPtsOfContours, g.numPoints as int);
      var flags := g.flags;
      var gx := g.xCoords;
      var gy := g.yCoords;
      var k: nat := 0;
      while k < n
        invariant k <= n
        invariant flags == g.flags + piece.flags[..k] && gx == g.xCoords + xs[..k] && gy == g.yCoords + ys[..k]
      {
        flags := flags + [piece.flags[k]];
        gx := gx + [xs[k]];
        gy := gy + [ys[k]];
        assert piece.flags[..k + 1] == piece.flags[..k] + [piece.flags[k]];
        assert xs[..k + 1] == xs[..k] + [xs[k]];
        assert ys[..k + 1] == ys[..k] + [ys[k]];
        k := k + 1;
      }
      assert xs[..n] == xs && ys[..n] == ys;
      r := g.(endPtsOfContours := ends,
              numContours := I16(g.numContours as int + piece.numContours as int),
              numPoints := U16(g.numPoints as int + piece.numPoints as int),
              flags := flags, xCoords := gx, yCoords := gy);
    }

    /** `m_get_truetype_glyph`: the glyph id, the glyph or its component
        records, and for a composite the pieces loaded and merged in order,
        with the metrics of the last USE_MY_METRICS component. */
    method GetTruetypeGlyph(c: u16) returns (r: Result<TruetypeGlyph>)
      requires WellFormed(Decoded())
      modifies reader
      ensures r == LoadGlyph(Bytes(), Decoded(), c)
    {
      var id := GlyphId(c);
      if id.Err? {
        return Err(id.error);
      }
      var gc := ReadGlyphAndComponents(id.value);
      if gc.Err? {
        return Err(gc.error);
      }
      var glyph := gc.value.0;
      var components := gc.value.1;
      if |components| == 0 {
        return Ok(glyph);
      }
      var b := Bytes();
      ghost var f := Decoded();
      glyph := glyph.(numContours := 0);
      ghost var spec := CompositeFrom(b, f, components, 0, glyph, 0);
      var base: u16 := 0;
      var i: nat := 0;
      while i < |components|
        invariant i <= |components|
        invariant CompositeFrom(b, f, components, i, glyph, base) == spec
      {
        var piece := ReadPiece(components[i].glyphIndex);
        if piece.Err? {
          return Err(piece.error);
        }
        if components[i].useBaseGlyphAwAndLsb {
          base := components[i].glyphIndex;
        }
        glyph := MergePiece(glyph, piece.value, components[i]);
        i := i + 1;
      }
      if base != 0 {
        if base as int >= |hmetrics| {
          return Err(IndexOutOfRange);
        }
        glyph := glyph.(advanceWidth := hmetrics[base].advanceWidth, leftSideBearing := hmetrics[base].lsb);
      }
      r := Ok(glyph);
    }

    /** `get_glyph`: a cached codepoint is answered from the cache; a loaded
        glyph with a nonzero id is cached under the codepoint, and one with
        id 0 is cached under key 0 unless that key is already present, in
        which case the entry there is answered. */
    method GetGlyph(c: u16) returns (r: Result<TruetypeGlyph>)
      requires WellFormed(Decoded())
      modifies this`glyphs, reader
      ensures (r, glyphs) == GetGlyphStep(Bytes(), Decoded(), old(glyphs), c)
    {
      if c in glyphs {
        return Ok(glyphs[c]);
      }
      var g := GetTruetypeGlyph(c);
      if g.Err? {
        return Err(g.error);
      }
      if g.value.id != 0 {
        glyphs := glyphs[c := g.value];
        return Ok(g.value);
      }
      if 0 in glyphs {
        return Ok(glyphs[0]);
      }
      glyphs := glyphs[0 := g.value];
      r := Ok(g.value);
    }
  }
}
