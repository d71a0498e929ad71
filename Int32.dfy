/** Two's-complement 32-bit integer arithmetic as the range-check pass relies on it:
    the `int` of the JIT is a 32-bit signed integer, and every overflow test in the
    pass is stated against its bounds. */
module Int32 {

  const INT_MIN: int := -0x8000_0000
  const INT_MAX: int := 0x7FFF_FFFF

  predicate InInt32(x: int) {
    INT_MIN <= x <= INT_MAX
  }

  /** A value of the source's `int` type. */
  type int32 = x: int | -0x8000_0000 <= x <= 0x7FFF_FFFF

  /** Reduces an unbounded integer to the 32-bit value with the same low 32 bits:
      what a signed 32-bit addition, subtraction or left shift produces on wrap-around. */
  function Wrap32(x: int): (r: int32)
    ensures (r - x) % 0x1_0000_0000 == 0
    ensures InInt32(x) ==> r == x
  {
    (x - INT_MIN) % 0x1_0000_0000 + INT_MIN
  }

  /** The same 32 bits read as an unsigned integer. */
  function Unsigned(x: int32): (r: int)
    ensures 0 <= r < 0x1_0000_0000
    ensures (r - x) % 0x1_0000_0000 == 0
    ensures 0 <= x ==> r == x
  {
    if x < 0 then x + 0x1_0000_0000 else x
  }

  /** True exactly when the mathematical sum of the two operands leaves the int32 range;
      only operands of the same sign can overflow. */
  predicate IntAddOverflows(max1: int32, max2: int32)
  {
    if max1 > 0 && max2 > 0 && INT_MAX - max1 < max2 then true
    else if max1 < 0 && max2 < 0 && max1 < INT_MIN - max2 then true
    else false
  }

  lemma IntAddOverflowsExact(max1: int32, max2: int32)
    ensures IntAddOverflows(max1, max2) <==> !InInt32(max1 + max2)
    ensures (max1 <= 0 <= max2 || max2 <= 0 <= max1) ==> !IntAddOverflows(max1, max2)
  {
    assert InInt32(max1) && InInt32(max2);
  }

  /** Signed 32-bit multiplication overflow: the mathematical product leaves the int32 range. */
  predicate MulOverflows(a: int32, b: int32)
  {
    !InInt32(a * b)
  }

  function Pow2(k: nat): (r: nat)
    ensures r >= 1
  {
    if k == 0 then 1 else 2 * Pow2(k - 1)
  }

  lemma {:induction false} Pow2Monotone(j: nat, k: nat)
    requires j <= k
    ensures Pow2(j) <= Pow2(k)
  {
    if j < k {
      Pow2Monotone(j, k - 1);
    }
  }

  lemma Pow2Of31()
    ensures Pow2(31) == 0x8000_0000
  {
    assert Pow2(4) == 16;
    assert Pow2(8) == 256;
    assert Pow2(12) == 4096;
    assert Pow2(16) == 0x1_0000;
    assert Pow2(20) == 0x10_0000;
    assert Pow2(24) == 0x100_0000;
    assert Pow2(28) == 0x1000_0000;
  }

  /** Arithmetic right shift `x >> k` of a 32-bit value by a count in 0..31: halving k
      times, each time rounding toward negative infinity (Dafny's `/` by a positive
      divisor floors), which is what the sign-propagating shift does. */
  function Shr(x: int32, k: nat): (r: int32)
    requires k <= 31
    ensures 0 <= x ==> 0 <= r <= x
    ensures x < 0 ==> x <= r < 0
  {
    if k == 0 then x
    else
      var y := Shr(x, k - 1);
      assert InInt32(y) && (y < 0 ==> y <= y / 2 < 0) && (0 <= y ==> 0 <= y / 2 <= y);
      y / 2
  }

  /** Division with remainder is unique: any split of `a` into multiples of m and a
      remainder in 0..m-1 is the one `/` and `%` give. */
  lemma ModUnique(a: int, m: int, q: int, s: int)
    requires m > 0 && a == m * q + s && 0 <= s < m
    ensures a % m == s
  {
    var q', s' := a / m, a % m;
    assert m * (q - q') == s' - s;
    if q > q' {
      MultipleAtLeast(m, q - q');
    } else if q < q' {
      MultipleAtLeast(m, q' - q);
    }
  }

  lemma MultipleAtLeast(m: int, d: int)
    requires m > 0 && d >= 1
    ensures m * d >= m
  {
    assert m * d == m * (d - 1) + m;
  }

  /** The low n bits of `a` are its lowest bit below the low n-1 bits of `a / 2`. */
  lemma ModPow2Split(a: nat, n: nat)
    requires n > 0
    ensures a % Pow2(n) == 2 * ((a / 2) % Pow2(n - 1)) + a % 2
  {
    var p := Pow2(n - 1);
    var q, r := (a / 2) / p, (a / 2) % p;
    assert a / 2 == p * q + r;
    assert a == (2 * p) * q + (2 * r + a % 2);
    ModUnique(a, 2 * p, q, 2 * r + a % 2);
  }

  /** A non-negative value wraps to its low 32 bits, read as signed. */
  lemma Wrap32OfNat(v: nat)
    ensures v % 0x1_0000_0000 < 0x8000_0000 ==> Wrap32(v) == v % 0x1_0000_0000
    ensures v % 0x1_0000_0000 >= 0x8000_0000 ==> Wrap32(v) == v % 0x1_0000_0000 - 0x1_0000_0000
  {
    var m := 0x1_0000_0000;
    var q, s := v / m, v % m;
    if s < 0x8000_0000 {
      ModUnique(v + 0x8000_0000, m, q, s + 0x8000_0000);
    } else {
      ModUnique(v + 0x8000_0000, m, q + 1, s + 0x8000_0000 - m);
    }
  }

  /** Left shift `x << k` of a 32-bit value by a count in 0..31, wrapping as the
      two's-complement hardware does. */
  function Shl(x: int32, k: nat): int32
    requires k <= 31
  {
    Wrap32(x * Pow2(k))
  }
}
