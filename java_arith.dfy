/**
 * Java `long`/`int` arithmetic: value ranges, truncating division, the `(int)`
 * narrowing of a `long`, and Math.max / Math.min.
 */
module JavaArith {
  const IntMin: int := -0x8000_0000
  const IntMax: int := 0x7FFF_FFFF
  const LongMin: int := -0x8000_0000_0000_0000
  const LongMax: int := 0x7FFF_FFFF_FFFF_FFFF

  predicate IsLong(x: int) { LongMin <= x <= LongMax }

  predicate IsInt(x: int) { IntMin <= x <= IntMax }

  /** Java's integer division by a positive divisor: the quotient is truncated toward zero. */
  function TruncDiv(a: int, b: int): int
    requires b > 0
  {
    if a >= 0 then a / b else -((-a) / b)
  }

  /** The `(int)` narrowing of a `long`: keeps the low 32 bits as a two's-complement value. */
  function ToInt(x: int): (r: int)
    ensures IsInt(r)
    ensures (x - r) % 0x1_0000_0000 == 0
    ensures IsInt(x) ==> r == x
  {
    var low := x % 0x1_0000_0000;
    if low > IntMax then low - 0x1_0000_0000 else low
  }

  /** Math.max and Math.min. */
  function Max(a: int, b: int): int { if a < b then b else a }

  function Min(a: int, b: int): int { if a < b then a else b }
}
