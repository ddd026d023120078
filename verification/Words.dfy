/** Machine words as bounded integers, with the wrap-around and the casts of the
    modelled C and C++ written out, and the optional value the modelled lookups return. */
module Words {
  const TWO32: int := 0x1_0000_0000
  const TWO63: int := 0x8000_0000_0000_0000
  const TWO64: int := 0x1_0000_0000_0000_0000
  const PAGE: int := 0x1000

  type u64 = x: int | 0 <= x < 0x1_0000_0000_0000_0000
  type u32 = x: int | 0 <= x < 0x1_0000_0000
  type i64 = x: int | -0x8000_0000_0000_0000 <= x < 0x8000_0000_0000_0000
  type i32 = x: int | -0x8000_0000 <= x < 0x8000_0000

  datatype Option<+T> = None | Some(value: T)

  /** Unsigned 64-bit wrap-around. */
  function Wrap64(x: int): (r: u64)
    ensures 0 <= x < TWO64 ==> r == x
  {
    x % TWO64
  }

  /** The low 32 bits. */
  function Wrap32(x: int): (r: u32)
    ensures 0 <= x < TWO32 ==> r == x
  {
    x % TWO32
  }

  /** Two's-complement reading of a 64-bit word. */
  function Signed64(x: u64): i64
  {
    if x < TWO63 then x else x - TWO64
  }

  /** Two's-complement reading of a 32-bit word. */
  function Signed32(x: u32): i32
  {
    if x < 0x8000_0000 then x else x - TWO32
  }

  /** `(int64_t)x - (int64_t)y` on a two's-complement machine. */
  function Diff64(x: u64, y: u64): i64 {
    Signed64(Wrap64(x - y))
  }

  /** Euclidean quotient and remainder are determined by the division equation. */
  lemma DivUnique(x: int, d: int, q: int, r: int)
    requires d > 0 && x == q * d + r && 0 <= r < d
    ensures x / d == q && x % d == r
  {
    var q', r' := x / d, x % d;
    assert x == q' * d + r';
    assert (q - q') * d == q * d - q' * d;
    MultipleBound(q - q', d);
  }

  lemma MultipleBound(n: int, d: int)
    requires d > 0
    ensures n > 0 ==> n * d >= d
    ensures n < 0 ==> n * d <= -d
  {
  }
}
