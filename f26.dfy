/** The 26.6 fixed-point helpers of the rasterizer.  A 26.6 value is a
    `uint32_t` counting 64ths of a pixel; `& -64` clears its six fraction
    bits, which for an unsigned value is subtracting the remainder modulo
    64.  The `+ 32` and `+ 63` of rounding and ceiling are `uint32_t`
    additions and wrap past 2^32 - 1. */
module Fixed26 {
  import opened Util
  import opened Pixels

  /** `floorf26`: the largest multiple of 64 not above `x`. */
  function FloorF26(x: u32): (r: u32)
    ensures r % 64 == 0 && r <= x < r + 64
    ensures x % 64 == 0 ==> r == x
  {
    x - x % 64
  }

  /** `ceilf26`: the smallest multiple of 64 not below `x`, unless `x + 63`
      wraps, in which case the result is 0. */
  function CeilF26(x: u32): (r: u32)
    ensures r % 64 == 0
    ensures x + 63 < 0x1_0000_0000 ==> x <= r < x + 64
    ensures x + 63 >= 0x1_0000_0000 ==> r == 0
    ensures x % 64 == 0 ==> r == x
  {
    FloorF26(U32(x + 63))
  }

  /** `roundf26`: the multiple of 64 nearest to `x`, halves rounding up,
      unless `x + 32` wraps, in which case the result is 0. */
  function RoundF26(x: u32): (r: u32)
    ensures r % 64 == 0
    ensures x + 32 < 0x1_0000_0000 ==> x - 31 <= r <= x + 32
    ensures x + 32 >= 0x1_0000_0000 ==> r == 0
  {
    FloorF26(U32(x + 32))
  }

  /** Rounding picks the floor below a half and the ceiling from a half
      on; the three agree on multiples of 64. */
  lemma RoundIsFloorOrCeil(x: u32)
    ensures x % 64 < 32 ==> RoundF26(x) == FloorF26(x)
    ensures x % 64 >= 32 && x + 63 < 0x1_0000_0000 ==> RoundF26(x) == CeilF26(x) == FloorF26(x) + 64
    ensures x % 64 == 0 ==> RoundF26(x) == FloorF26(x) == CeilF26(x) == x
  {
    var q := x / 64;
    assert x == 64 * q + x % 64;
    if x % 64 < 32 {
      DivModUnique(x + 32, 64, q, x % 64 + 32);
    } else if x + 63 < 0x1_0000_0000 {
      DivModUnique(x + 32, 64, q + 1, x % 64 - 32);
      DivModUnique(x + 63, 64, q + 1, x % 64 - 1);
    }
  }

  /** Floor, ceiling and rounding never decrease when their argument grows,
      as long as no addition wraps. */
  lemma F26Monotone(x: u32, y: u32)
    requires x <= y
    ensures FloorF26(x) <= FloorF26(y)
    ensures y + 63 < 0x1_0000_0000 ==> CeilF26(x) <= CeilF26(y)
    ensures y + 32 < 0x1_0000_0000 ==> RoundF26(x) <= RoundF26(y)
  {
    FloorMonotone(x, y);
    if y + 63 < 0x1_0000_0000 {
      FloorMonotone(x + 63, y + 63);
    }
    if y + 32 < 0x1_0000_0000 {
      FloorMonotone(x + 32, y + 32);
    }
  }

  lemma FloorMonotone(x: u32, y: u32)
    requires x <= y
    ensures FloorF26(x) <= FloorF26(y)
  {
    var a, b := x / 64, y / 64;
    assert x == 64 * a + x % 64 && y == 64 * b + y % 64;
    assert FloorF26(x) == 64 * a && FloorF26(y) == 64 * b;
    assert 64 * a <= y < 64 * b + 64;
  }

  /** Each helper lands on a multiple of 64, which all three leave alone:
      applying any of them after another changes nothing. */
  lemma F26Idempotent(x: u32)
    ensures FloorF26(FloorF26(x)) == FloorF26(x) && CeilF26(FloorF26(x)) == FloorF26(x)
    ensures RoundF26(RoundF26(x)) == RoundF26(x) && FloorF26(RoundF26(x)) == RoundF26(x)
    ensures CeilF26(CeilF26(x)) == CeilF26(x) && RoundF26(CeilF26(x)) == CeilF26(x)
  {
    RoundIsFloorOrCeil(FloorF26(x));
    RoundIsFloorOrCeil(RoundF26(x));
    RoundIsFloorOrCeil(CeilF26(x));
  }

  /** `midpoint`: the halves of the `uint32_t` sums of the coordinates. */
  function Midpoint(x1: u32, x2: u32, y1: u32, y2: u32): (r: IVec2)
    ensures x1 + x2 < 0x1_0000_0000 ==> r.x == (x1 + x2) / 2 && (x1 <= r.x <= x2 || x2 <= r.x <= x1)
    ensures y1 + y2 < 0x1_0000_0000 ==> r.y == (y1 + y2) / 2 && (y1 <= r.y <= y2 || y2 <= r.y <= y1)
  {
    IVec2(U32(x1 + x2) / 2, U32(y1 + y2) / 2)
  }

  /** The midpoint does not depend on the order of the two points. */
  lemma MidpointSymmetric(x1: u32, x2: u32, y1: u32, y2: u32)
    ensures Midpoint(x1, x2, y1, y2) == Midpoint(x2, x1, y2, y1)
  {
  }
}
