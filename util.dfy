/** Fixed-width integers, the big-endian byte helpers and the sequential byte
    reader that every table of the font file is decoded with.

    Bytes are kept as their unsigned bit patterns (`u8`); a C++ `char` that the
    source sign-extends is turned into an `int` by `SignExtend8`.  Unsigned
    arithmetic that wraps in the source is written out with `U16`/`U32`, and the
    conversion of an out-of-range value to a signed type with `I16`/`I32`
    (two's complement). */
module Util {
  import opened Wrappers

  type u8 = x: int | 0 <= x < 0x100
  type u16 = x: int | 0 <= x < 0x1_0000
  type u32 = x: int | 0 <= x < 0x1_0000_0000
  type i16 = x: int | -0x8000 <= x < 0x8000
  type i32 = x: int | -0x8000_0000 <= x < 0x8000_0000

  /** Conversion of any integer to `uint16_t` (reduction modulo 2^16). */
  function U16(x: int): (r: u16)
    ensures 0 <= x < 0x1_0000 ==> r == x
  {
    x % 0x1_0000
  }

  /** Conversion of any integer to `uint32_t` (reduction modulo 2^32). */
  function U32(x: int): (r: u32)
    ensures 0 <= x < 0x1_0000_0000 ==> r == x
  {
    x % 0x1_0000_0000
  }

  /** Conversion of any integer to `int16_t` (two's complement wrap-around). */
  function I16(x: int): (r: i16)
    ensures -0x8000 <= x < 0x8000 ==> r == x
  {
    var m := x % 0x1_0000;
    if m < 0x8000 then m else m - 0x1_0000
  }

  /** Conversion of any integer to `int32_t` (two's complement wrap-around). */
  function I32(x: int): (r: i32)
    ensures -0x8000_0000 <= x < 0x8000_0000 ==> r == x
  {
    var m := x % 0x1_0000_0000;
    if m < 0x8000_0000 then m else m - 0x1_0000_0000
  }

  /** Every conversion keeps the value modulo the width of its type. */
  lemma WrapIsModular(x: int)
    ensures (U16(x) - x) % 0x1_0000 == 0 && (I16(x) - x) % 0x1_0000 == 0
    ensures (U32(x) - x) % 0x1_0000_0000 == 0 && (I32(x) - x) % 0x1_0000_0000 == 0
  {
  }

  /** The value of a byte read through `(int8_t)` or a signed `char`. */
  function SignExtend8(b: u8): (r: int)
    ensures -0x80 <= r < 0x80
    ensures b < 0x80 ==> r == b
    ensures b >= 0x80 ==> r < 0 && r % 0x100 == b
  {
    if b < 0x80 then b else b - 0x100
  }

  // ---------------------------------------------------------------------
  // split_bytes / join_bytes

  /** `split_bytes(uint32_t)`: the four bytes of `data`, most significant
      first, taken by repeatedly shifting right by eight. */
  function SplitBytes32(data: u32): (r: seq<u8>)
    ensures |r| == 4
    ensures JoinBytes32(r) == data
  {
    var w := data % 0x100;
    var t1 := data / 0x100;
    var z := t1 % 0x100;
    var t2 := t1 / 0x100;
    var y := t2 % 0x100;
    var x := (t2 / 0x100) % 0x100;
    [x, y, z, w]
  }

  /** `split_bytes(int32_t)`: the two's complement bytes of a signed value,
      most significant first (arithmetic shifts; the low eight bits of each
      step are kept). */
  function SplitBytesSigned32(data: i32): (r: seq<u8>)
    ensures |r| == 4
    ensures JoinInt32(r) == data
  {
    var w := data % 0x100;
    var t1 := data / 0x100;
    var z := t1 % 0x100;
    var t2 := t1 / 0x100;
    var y := t2 % 0x100;
    var t3 := t2 / 0x100;
    var x := t3 % 0x100;
    SignedBytesJoin(data, t3, x, y, z, w);
    [x, y, z, w]
  }

  /** The four bytes of a signed value, with `t3` the value shifted right
      by 24, join to its unsigned reinterpretation. */
  lemma SignedBytesJoin(data: i32, t3: int, x: u8, y: u8, z: u8, w: u8)
    requires data == ((t3 * 0x100 + y) * 0x100 + z) * 0x100 + w
    requires x == t3 % 0x100
    ensures I32(JoinBytes32([x, y, z, w])) == data
  {
    assert -0x80 <= t3 < 0x80;
    assert JoinBytes32([x, y, z, w]) == ((x * 0x100 + y) * 0x100 + z) * 0x100 + w;
    if t3 < 0 {
      assert x == t3 + 0x100;
      assert JoinBytes32([x, y, z, w]) == data + 0x1_0000_0000;
    }
  }

  /** `split_bytes(uint16_t)`: high byte then low byte. */
  function SplitBytes16(data: u16): (r: seq<u8>)
    ensures |r| == 2
    ensures JoinBytes16(r[0], r[1]) == data
  {
    [data / 0x100, data % 0x100]
  }

  /** `join_bytes(std::array<char, 4>)`: a big-endian unsigned 32-bit value. */
  function JoinBytes32(b: seq<u8>): (r: u32)
    requires |b| == 4
  {
    (((b[0] as int) * 0x100 + b[1]) * 0x100 + b[2]) * 0x100 + b[3]
  }

  /** Each byte of a joined quadruple can be read back by shifting and
      masking. */
  lemma JoinBytes32Digits(b: seq<u8>)
    requires |b| == 4
    ensures var r := JoinBytes32(b);
            r % 0x100 == b[3] && (r / 0x100) % 0x100 == b[2]
            && (r / 0x100 / 0x100) % 0x100 == b[1] && r / 0x100 / 0x100 / 0x100 == b[0]
  {
    var hi := (b[0] as int) * 0x100 + b[1];
    var mid := hi * 0x100 + b[2];
    DivModByte(hi, b[2]);
    DivModByte(mid, b[3]);
    DivModByte(b[0], b[1]);
  }

  /** Division and remainder by 256 of `q * 256 + r` for a byte `r`. */
  lemma DivModByte(q: int, r: u8)
    ensures (q * 0x100 + r) / 0x100 == q && (q * 0x100 + r) % 0x100 == r
  {
  }

  /** The unsigned reading of the two's complement reading of a 32-bit
      pattern is the pattern itself. */
  lemma UnsignedOfSigned32(x: u32)
    ensures U32(I32(x)) == x
  {
    if x >= 0x8000_0000 {
      assert I32(x) == x - 0x1_0000_0000;
    }
  }

  /** `join_bytes(char, char)`: a big-endian unsigned 16-bit value. */
  function JoinBytes16(b1: u8, b2: u8): (r: u16)
  {
    (b1 as int) * 0x100 + b2
  }

  /** Splitting a joined pair gives back its bytes. */
  lemma SplitJoinBytes16(b1: u8, b2: u8)
    ensures SplitBytes16(JoinBytes16(b1, b2)) == [b1, b2]
  {
    DivModByte(b1, b2);
  }

  /** `join_bytes_signed(char, char)`: the high byte is sign-extended and
      shifted, the low byte masked to eight bits.  The result is the two's
      complement reading of the unsigned join. */
  function JoinBytesSigned16(b1: u8, b2: u8): (r: i16)
    ensures r == I16(JoinBytes16(b1, b2))
  {
    SignExtend8(b1) * 0x100 + b2
  }

  /** The bytes of the unsigned reinterpretation of a signed join are the
      joined bytes. */
  lemma SplitJoinBytesSigned16(b1: u8, b2: u8)
    ensures SplitBytes16(U16(JoinBytesSigned16(b1, b2))) == [b1, b2]
  {
    var u := JoinBytes16(b1, b2);
    assert U16(I16(u)) == u;
    SplitJoinBytes16(b1, b2);
  }

  /** Two's complement reading of four big-endian bytes; the reading the
      signed 32-bit join is meant to perform. */
  function JoinInt32(b: seq<u8>): (r: i32)
    requires |b| == 4
    ensures U32(r) == JoinBytes32(b)
  {
    UnsignedOfSigned32(JoinBytes32(b));
    I32(JoinBytes32(b))
  }

  /** `join_bytes_signed(std::array<char, 4>)` as written: every byte is
      sign-extended to 32 bits before it is shifted into place, and the four
      words are combined with bitwise OR.  A sign-extended byte carries ones in
      every bit above its own eight, so byte `j` of the result is 0xFF as soon
      as a less significant byte has its top bit set, and `b[j]` otherwise.
      The result therefore differs from `JoinInt32` whenever one of the three
      lower bytes is 0x80 or more (see `JoinBytesSigned32Differs`). */
  function JoinBytesSigned32(b: seq<u8>): (r: i32)
    requires |b| == 4
    ensures b[1] < 0x80 && b[2] < 0x80 && b[3] < 0x80 ==> r == JoinInt32(b)
    ensures b[3] >= 0x80 ==> -0x80 <= r < 0
  {
    JoinInt32([OrFilled(b, 0), OrFilled(b, 1), OrFilled(b, 2), b[3]])
  }

  /** Byte `j` of the OR of the sign-extended, shifted bytes of `b`. */
  function OrFilled(b: seq<u8>, j: nat): (r: u8)
    requires |b| == 4 && j < 3
  {
    if (j < 1 && b[1] >= 0x80) || (j < 2 && b[2] >= 0x80) || b[3] >= 0x80 then 0xFF else b[j]
  }

  /** Finding: the signed 32-bit join as written reads the bytes 00 00 00 80
      (the number 128) as -128. */
  lemma JoinBytesSigned32Differs()
    ensures JoinBytesSigned32([0, 0, 0, 0x80]) == -128
    ensures JoinInt32([0, 0, 0, 0x80]) == 128
  {
  }

  /** Splitting a joined quadruple gives back its bytes. */
  lemma SplitJoinBytes32(b: seq<u8>)
    requires |b| == 4
    ensures SplitBytes32(JoinBytes32(b)) == b
  {
    JoinBytes32Digits(b);
    var r := SplitBytes32(JoinBytes32(b));
    assert r[0] == b[0] && r[1] == b[1] && r[2] == b[2] && r[3] == b[3];
  }

  /** The signed split and the corrected signed join are inverse. */
  lemma SplitJoinInt32(b: seq<u8>)
    requires |b| == 4
    ensures SplitBytesSigned32(JoinInt32(b)) == b
  {
    var v := JoinInt32(b);
    SignedSplitIsUnsignedSplit(v);
    assert U32(v) == JoinBytes32(b);
    SplitJoinBytes32(b);
  }

  /** The bytes of a signed value are those of its unsigned reinterpretation. */
  lemma SignedSplitIsUnsignedSplit(v: i32)
    ensures SplitBytesSigned32(v) == SplitBytes32(U32(v))
  {
    var u := U32(v);
    var a := SplitBytesSigned32(v);
    var c := SplitBytes32(u);
    assert JoinBytes32(a) == u by {
      assert JoinInt32(a) == v;
      assert I32(JoinBytes32(a)) == v;
    }
    SplitJoinBytes32(a);
  }

  // ---------------------------------------------------------------------
  // little_endian

  /** The byte-swapped value that `little_endian` is meant to compute. */
  function ByteSwap32(data: u32): (r: u32)
    ensures SplitBytes32(r) == Reverse4(SplitBytes32(data))
  {
    SplitJoinBytes32(Reverse4(SplitBytes32(data)));
    JoinBytes32(Reverse4(SplitBytes32(data)))
  }

  function Reverse4(b: seq<u8>): (r: seq<u8>)
    requires |b| == 4
    ensures |r| == 4 && r[0] == b[3] && r[1] == b[2] && r[2] == b[1] && r[3] == b[0]
  {
    [b[3], b[2], b[1], b[0]]
  }

  /** Swapping twice gives back the value. */
  lemma ByteSwapInvolution(data: u32)
    ensures ByteSwap32(ByteSwap32(data)) == data
  {
    var s := SplitBytes32(data);
    var once := ByteSwap32(data);
    assert SplitBytes32(once) == Reverse4(s);
    assert Reverse4(Reverse4(s)) == s;
    assert SplitBytes32(ByteSwap32(once)) == s;
    assert JoinBytes32(SplitBytes32(ByteSwap32(once))) == ByteSwap32(once);
  }

  /** `little_endian`: splits the value and copies its bytes in reverse order
      with a loop over the reversed array before joining them again. */
  method LittleEndian(data: u32) returns (r: u32)
    ensures r == ByteSwap32(data)
    ensures SplitBytes32(r) == Reverse4(SplitBytes32(data))
  {
    var bytes := SplitBytes32(data);
    var rbytes: seq<u8> := [0, 0, 0, 0];
    var i := 0;
    while i < 4
      invariant 0 <= i <= 4 && |rbytes| == 4
      invariant forall k :: 0 <= k < i ==> rbytes[k] == bytes[3 - k]
    {
      rbytes := rbytes[i := bytes[3 - i]];
      i := i + 1;
    }
    assert rbytes == Reverse4(bytes);
    r := JoinBytes32(rbytes);
  }

  // ---------------------------------------------------------------------
  // Reads at an absolute offset

  /** A big-endian `uint32` at byte `p`, or `OutOfBounds` past the end. */
  function U32At(b: seq<u8>, p: nat): (r: Result<u32>)
    ensures r.Ok? <==> p + 4 <= |b|
    ensures r.Ok? ==> r.value == JoinBytes32([b[p], b[p + 1], b[p + 2], b[p + 3]])
    ensures r.Err? ==> r.error == OutOfBounds
  {
    if p + 4 <= |b| then Ok(JoinBytes32([b[p], b[p + 1], b[p + 2], b[p + 3]]))
    else Err(OutOfBounds)
  }

  /** A big-endian `uint16` at byte `p`, or `OutOfBounds` past the end. */
  function U16At(b: seq<u8>, p: nat): (r: Result<u16>)
    ensures r.Ok? <==> p + 2 <= |b|
    ensures r.Ok? ==> r.value == JoinBytes16(b[p], b[p + 1])
    ensures r.Err? ==> r.error == OutOfBounds
  {
    if p + 2 <= |b| then Ok(JoinBytes16(b[p], b[p + 1])) else Err(OutOfBounds)
  }

  /** A big-endian `int16` at byte `p`, or `OutOfBounds` past the end. */
  function I16At(b: seq<u8>, p: nat): (r: Result<i16>)
    ensures r.Ok? <==> p + 2 <= |b|
    ensures r.Ok? ==> r.value == JoinBytesSigned16(b[p], b[p + 1])
    ensures r.Err? ==> r.error == OutOfBounds
  {
    if p + 2 <= |b| then Ok(JoinBytesSigned16(b[p], b[p + 1])) else Err(OutOfBounds)
  }

  /** A big-endian `int32` at byte `p` (corrected signed join). */
  function I32At(b: seq<u8>, p: nat): (r: Result<i32>)
    ensures r.Ok? <==> p + 4 <= |b|
    ensures r.Ok? ==> r.value == JoinInt32([b[p], b[p + 1], b[p + 2], b[p + 3]])
    ensures r.Err? ==> r.error == OutOfBounds
  {
    if p + 4 <= |b| then Ok(JoinInt32([b[p], b[p + 1], b[p + 2], b[p + 3]]))
    else Err(OutOfBounds)
  }

  /** A successful read decodes exactly the bytes it covers: splitting the
      value again gives back `b[p..p + width]`. */
  lemma ReadsDecodeTheirBytes(b: seq<u8>, p: nat)
    ensures U32At(b, p).Ok? ==> SplitBytes32(U32At(b, p).value) == b[p..p + 4]
    ensures I32At(b, p).Ok? ==> SplitBytesSigned32(I32At(b, p).value) == b[p..p + 4]
    ensures U16At(b, p).Ok? ==> SplitBytes16(U16At(b, p).value) == b[p..p + 2]
    ensures I16At(b, p).Ok? ==> SplitBytes16(U16(I16At(b, p).value)) == b[p..p + 2]
  {
    if p + 4 <= |b| {
      SplitJoinBytes32(b[p..p + 4]);
      SplitJoinInt32(b[p..p + 4]);
      assert b[p..p + 4] == [b[p], b[p + 1], b[p + 2], b[p + 3]];
    }
    if p + 2 <= |b| {
      SplitJoinBytes16(b[p], b[p + 1]);
      SplitJoinBytesSigned16(b[p], b[p + 1]);
      assert b[p..p + 2] == [b[p], b[p + 1]];
    }
  }

  /** A byte at `p`, or `OutOfBounds` past the end. */
  function U8At(b: seq<u8>, p: nat): (r: Result<u8>)
    ensures r.Ok? <==> p < |b|
    ensures r.Ok? ==> r.value == b[p]
  {
    if p < |b| then Ok(b[p]) else Err(OutOfBounds)
  }

  // ---------------------------------------------------------------------
  // ivec2 and vector_reader

  /** `ivec2`: an unsigned 2-D point or size, zero by default. */
  datatype IVec2 = IVec2(x: u32, y: u32)

  /** `vector_reader`: the whole file as a byte vector and a read cursor.
      The constructor takes the bytes that `load` would read from the file.
      Each `get_*` reads at the cursor and advances it by the width read;
      a read past the end (undefined in the source) fails and leaves the
      cursor where it was. */
  class VectorReader {
    const bytes: seq<u8>
    var position: nat

    constructor (contents: seq<u8>)
      ensures bytes == contents && position == 0
    {
      bytes := contents;
      position := 0;
    }

    /** `set_position` */
    method SetPosition(x: nat)
      modifies this
      ensures position == x
    {
      position := x;
    }

    /** `increment_position` */
    method IncrementPosition(x: nat)
      modifies this
      ensures position == old(position) + x
    {
      position := position + x;
    }

    /** `get_uint32` */
    method GetUint32() returns (r: Result<u32>)
      modifies this
      ensures r == U32At(bytes, old(position))
      ensures position == if r.Ok? then old(position) + 4 else old(position)
    {
      r := U32At(bytes, position);
      if r.Ok? {
        position := position + 4;
      }
    }

    /** `get_uint16` */
    method GetUint16() returns (r: Result<u16>)
      modifies this
      ensures r == U16At(bytes, old(position))
      ensures position == if r.Ok? then old(position) + 2 else old(position)
    {
      r := U16At(bytes, position);
      if r.Ok? {
        position := position + 2;
      }
    }

    /** `get_uint8` */
    method GetUint8() returns (r: Result<u8>)
      modifies this
      ensures r == U8At(bytes, old(position))
      ensures position == if r.Ok? then old(position) + 1 else old(position)
    {
      r := U8At(bytes, position);
      if r.Ok? {
        position := position + 1;
      }
    }

    /** `get_int32` (with the corrected signed join) */
    method GetInt32() returns (r: Result<i32>)
      modifies this
      ensures r == I32At(bytes, old(position))
      ensures position == if r.Ok? then old(position) + 4 else old(position)
    {
      r := I32At(bytes, position);
      if r.Ok? {
        position := position + 4;
      }
    }

    /** `get_int16` */
    method GetInt16() returns (r: Result<i16>)
      modifies this
      ensures r == I16At(bytes, old(position))
      ensures position == if r.Ok? then old(position) + 2 else old(position)
    {
      r := I16At(bytes, position);
      if r.Ok? {
        position := position + 2;
      }
    }
  }
}
