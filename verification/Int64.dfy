/** Go's 64-bit signed integers: range, wrap-around and truncating division. */
module Int64 {
  const MIN_INT: int := -0x8000_0000_0000_0000
  const MAX_INT: int := 0x7FFF_FFFF_FFFF_FFFF

  predicate InRange(x: int) {
    MIN_INT <= x <= MAX_INT
  }

  /** Two's complement wrap-around of one step of addition or subtraction. */
  function Wrap(x: int): (r: int)
    ensures InRange(x) ==> r == x
    ensures x == MAX_INT + 1 ==> r == MIN_INT
    ensures x == MIN_INT - 1 ==> r == MAX_INT
    ensures InRange(r)
  {
    (x - MIN_INT) % 0x1_0000_0000_0000_0000 + MIN_INT
  }

  /** Go's `/`, which rounds toward zero. */
  function TruncDiv(a: int, b: int): (q: int)
    requires b != 0
  {
    if a >= 0 then a / b else -((-a) / b)
  }

  /** The quotient that leaves a remainder smaller than the divisor, on the dividend's side of zero. */
  lemma TruncDivExact(a: int, b: int)
    requires b > 0
    ensures var r := a - TruncDiv(a, b) * b; if a >= 0 then 0 <= r < b else -b < r <= 0
  {
    if a < 0 {
      assert -((-a) / b) * b == -(((-a) / b) * b);
    }
  }

  /** Exactly the 64-bit value that differs by a multiple of two to the 64th. */
  lemma WrapIsTwosComplement(x: int)
    ensures -9_223_372_036_854_775_808 <= Wrap(x) <= 9_223_372_036_854_775_807
    ensures (Wrap(x) - x) % 18_446_744_073_709_551_616 == 0
  {
  }
}
