/** The C/C++ arithmetic the kernel relies on, written out explicitly: 8-bit
    samples, the 64-bit mode selector, conversion of a floating value to an
    integer (truncation toward zero), integer division (also truncating) and
    the narrowing store of a floating value into an 8-bit sample. */
module CArith {

  /** An 8-bit unsigned sample, `uint8_t`. */
  newtype byte = x: int | 0 <= x < 256

  /** `int64_t`, the type the mode selector is narrowed to. */
  newtype int64 = x: int | -0x8000_0000_0000_0000 <= x < 0x8000_0000_0000_0000

  const INT32_MIN: int := -0x8000_0000
  const INT32_MAX: int := 0x7fff_ffff

  /** The value is representable as a C `int` on the platforms the plugin targets. */
  predicate FitsInt32(n: int) {
    INT32_MIN <= n <= INT32_MAX
  }

  /** Conversion of a floating value to an integer type: the fractional part
      is discarded, i.e. the value is truncated toward zero. */
  function Trunc(v: real): (n: int)
    ensures 0.0 <= v ==> n as real <= v < n as real + 1.0
    ensures v < 0.0 ==> n as real - 1.0 < v <= n as real
  {
    if v >= 0.0 then v.Floor else -((-v).Floor)
  }

  function Abs(n: int): (r: int)
    ensures 0 <= r && (r == n || r == -n)
  {
    if n < 0 then -n else n
  }

  /** C integer division `a / b` for a positive divisor: the quotient is
      truncated toward zero, so unlike Dafny's Euclidean `/` a negative
      dividend gives a quotient rounded up, not down. */
  function CDiv(a: int, b: int): (q: int)
    requires 0 < b
    ensures 0 <= a ==> q * b <= a < q * b + b
    ensures a < 0 ==> q * b - b < a <= q * b
    ensures Abs(q) * b <= Abs(a)
  {
    DivBounds(Abs(a), b);
    if a >= 0 then a / b else -((-a) / b)
  }

  /** Dafny's Euclidean division on a non-negative dividend. */
  lemma DivBounds(n: nat, b: int)
    requires 0 < b
    ensures (n / b) * b <= n < (n / b) * b + b
  {
    assert n == (n / b) * b + n % b;
  }

  /** The store of a floating value into a `uint8_t`. C++ leaves an
      out-of-range conversion undefined; this model fixes one behaviour for
      it: truncate toward zero, then keep the low eight bits (wrap modulo 256),
      which is what a truncating conversion to `int` followed by a byte store
      does. Inside the range nothing is wrapped. */
  function NarrowToByte(v: real): (r: byte)
    ensures (r as int - Trunc(v)) % 256 == 0
    ensures 0.0 <= v < 256.0 ==> r as int == Trunc(v)
  {
    (Trunc(v) % 256) as byte
  }

  /** `int64_t key = d->key`: the mode selector, a `double`, narrowed to a
      64-bit integer by truncation toward zero. The conversion is only
      defined when the truncated value is representable. */
  function ModeOf(key: real): (m: int64)
    requires -9223372036854775809.0 < key < 9223372036854775808.0
    ensures 0.0 <= key ==> m as real <= key < m as real + 1.0
    ensures key < 0.0 ==> m as real - 1.0 < key <= m as real
  {
    Trunc(key) as int64
  }

  /** A fractional selector picks the mode of its integer part, toward zero. */
  lemma ModeOfTruncatesTowardZero()
    ensures ModeOf(1.7) == 1 && ModeOf(0.9) == 0 && ModeOf(-0.9) == 0
    ensures ModeOf(-1.7) == -1 && ModeOf(4.0) == 4
  {
  }
}
