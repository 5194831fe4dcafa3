/** The source's machine integers: their ranges, wrap-around and division toward zero. */
module Integers {

  const INT64_MAX: int := 0x7fff_ffff_ffff_ffff
  const INT64_MIN: int := -0x8000_0000_0000_0000

  predicate Int64(v: int) {
    INT64_MIN <= v <= INT64_MAX
  }

  predicate Int16(e: int) {
    -0x8000 <= e < 0x8000
  }

  function Wrap16(x: int): (r: int)
    ensures Int16(r) && (Int16(x) ==> r == x)
  {
    (x + 0x8000) % 0x1_0000 - 0x8000
  }

  predicate Int32(v: int) {
    -0x8000_0000 <= v < 0x8000_0000
  }

  function Wrap32(x: int): (r: int)
    ensures Int32(r) && (Int32(x) ==> r == x)
  {
    (x + 0x8000_0000) % 0x1_0000_0000 - 0x8000_0000
  }

  function Wrap64(x: int): (r: int)
    ensures Int64(r) && (Int64(x) ==> r == x)
  {
    (x - INT64_MIN) % 0x1_0000_0000_0000_0000 + INT64_MIN
  }

  /** A signed number as the unsigned one with the same bits. */
  function Unsigned32(x: int): (r: nat)
    ensures r < 0x1_0000_0000 && (0 <= x < 0x1_0000_0000 ==> r == x)
  {
    x % 0x1_0000_0000
  }

  function Unsigned64(x: int): (r: nat)
    ensures r < 0x1_0000_0000_0000_0000 && (0 <= x < 0x1_0000_0000_0000_0000 ==> r == x)
  {
    x % 0x1_0000_0000_0000_0000
  }

  /** All bits of a signed number are flipped, or none. */
  function Flipped(x: int, flip: bool): int {
    if flip then -x - 1 else x
  }

  /** Division as the source's `/` does it. */
  function TruncDiv(v: int, p: nat): int
    requires p > 0
  {
    if v >= 0 then v / p else -((-v) / p)
  }
}
