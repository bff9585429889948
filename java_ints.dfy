/**
 * Java's fixed-width integers: the two's complement truncation performed by
 * Number.intValue and Number.longValue on integral values, and the
 * wrap-around of 64-bit addition.
 */
module JavaInts {

  const TWO_31: int := 0x8000_0000
  const TWO_32: int := 0x1_0000_0000
  const TWO_63: int := 0x8000_0000_0000_0000
  const TWO_64: int := 0x1_0000_0000_0000_0000

  /** The Java `int` whose low 32 bits agree with those of x. */
  function Int32(x: int): (r: int)
    ensures -TWO_31 <= r < TWO_31
  {
    var m := x % TWO_32;
    if m < TWO_31 then m else m - TWO_32
  }

  /** The Java `long` whose low 64 bits agree with those of x. */
  function Int64(x: int): (r: int)
    ensures -TWO_63 <= r < TWO_63
  {
    var m := x % TWO_64;
    if m < TWO_63 then m else m - TWO_64
  }

  /** A value already in range is left unchanged by the truncation. */
  lemma Int32InRange(x: int)
    requires -TWO_31 <= x < TWO_31
    ensures Int32(x) == x
  {
  }

  lemma Int64InRange(x: int)
    requires -TWO_63 <= x < TWO_63
    ensures Int64(x) == x
  {
  }

  /** Truncation keeps the value modulo 2^64. */
  lemma Int64Residue(x: int)
    ensures (x - Int64(x)) % TWO_64 == 0
  {
  }

  /** Two integers congruent modulo 2^64 truncate to the same long. */
  lemma Int64Congruent(x: int, y: int)
    requires (x - y) % TWO_64 == 0
    ensures Int64(x) == Int64(y)
  {
  }

  /**
   * Java's `long` addition, which wraps, agrees with truncating the exact
   * sum: adding two truncated values and truncating again loses nothing.
   */
  lemma Int64Add(a: int, b: int)
    ensures Int64(Int64(a) + Int64(b)) == Int64(a + b)
  {
    Int64Residue(a);
    Int64Residue(b);
    Int64Congruent(Int64(a) + Int64(b), a + b);
  }
}
