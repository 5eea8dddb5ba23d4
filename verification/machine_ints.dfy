/**
 The fixed-width integers of the C++ stream code, carried as mathematical
 integers with every wrap-around written out explicitly.
 */
module MachineInts {

  const TWO_31: int := 0x8000_0000
  const TWO_32: int := 0x1_0000_0000
  const TWO_63: int := 0x8000_0000_0000_0000
  const TWO_64: int := 0x1_0000_0000_0000_0000

  /** uint32_t */
  type uint32 = x: int | 0 <= x < 0x1_0000_0000
  /** int32_t, also status_t */
  type int32 = x: int | -0x8000_0000 <= x < 0x8000_0000
  /** uint64_t and size_t */
  type uint64 = x: int | 0 <= x < 0x1_0000_0000_0000_0000
  /** int64_t and ssize_t */
  type int64 = x: int | -0x8000_0000_0000_0000 <= x < 0x8000_0000_0000_0000

  /** What a uint32_t keeps of an exact result. */
  function Wrap32(x: int): uint32 {
    x % TWO_32
  }

  /** What a uint64_t (size_t) keeps of an exact result. */
  function Wrap64(x: int): uint64 {
    x % TWO_64
  }

  /** The cast `(uint32_t) v` of a 64-bit value. */
  function Low32(v: uint64): uint32 {
    v % TWO_32
  }

  /** A 32-bit pattern read as a two's-complement int32_t. */
  function AsInt32(x: uint32): int32 {
    if x < TWO_31 then x else x - TWO_32
  }

  /** A size_t read as ssize_t (two's complement). */
  function AsInt64(x: uint64): int64 {
    if x < TWO_63 then x else x - TWO_64
  }

  /** An ssize_t stored into a size_t. */
  function AsUint64(x: int64): uint64 {
    if x >= 0 then x else x + TWO_64
  }

  /** A value already in range is its own reduction. */
  lemma Wrap64InRange(x: int)
    requires 0 <= x < TWO_64
    ensures Wrap64(x) == x
  {
  }

  /** Adding after a reduction is the same as reducing after adding. */
  lemma Wrap64Add(a: int, b: int)
    ensures Wrap64(Wrap64(a) + b) == Wrap64(a + b)
  {
    var q := a / 0x1_0000_0000_0000_0000;
    assert a + b == (Wrap64(a) + b) + q * 0x1_0000_0000_0000_0000;
  }

  /** A value written as k * 2^32 + b with b in [0, 2^32) has remainder b. */
  lemma Mod32Unique(x: int, k: int, b: int)
    requires x == k * 0x1_0000_0000 + b && 0 <= b < 0x1_0000_0000
    ensures x % 0x1_0000_0000 == b
  {
    var d := x / 0x1_0000_0000;
    var m := x % 0x1_0000_0000;
    assert x == d * 0x1_0000_0000 + m && 0 <= m < 0x1_0000_0000;
    assert (d - k) * 0x1_0000_0000 == b - m;
    assert -0x1_0000_0000 < b - m < 0x1_0000_0000;
  }

  /** The low 32 bits survive a reduction modulo 2^64. */
  lemma Low32OfWrap64(x: int)
    ensures Low32(Wrap64(x)) == Wrap32(x)
  {
    var q := x / 0x1_0000_0000_0000_0000;
    var r := Wrap64(x);
    assert x == q * 0x1_0000_0000_0000_0000 + r;
    var a := r / 0x1_0000_0000;
    var b := r % 0x1_0000_0000;
    assert r == a * 0x1_0000_0000 + b;
    Mod32Unique(r, a, b);
    Mod32Unique(x, q * 0x1_0000_0000 + a, b);
  }

  /** A product with a positive factor keeps the sign of the other factor. */
  lemma {:induction false} MulSign(q: int, m: int)
    requires m >= 1
    ensures q >= 0 ==> q <= q * m
    ensures q < 0 ==> q * m <= -m
    decreases m
  {
    if m > 1 {
      MulSign(q, m - 1);
      assert q * m == q * (m - 1) + q;
    }
  }

  /** Integer division rounds down: the quotient counts whole multiples. */
  lemma DivFloor(a: int, m: int)
    requires a >= 0 && m >= 1
    ensures (a / m) * m <= a < (a / m) * m + m
    ensures 0 <= a / m <= a
  {
    var q := a / m;
    var r := a % m;
    assert a == q * m + r && 0 <= r < m;
    MulSign(q, m);
  }
}
