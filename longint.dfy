/** The 64-bit integer arithmetic of an LP64 platform, where `long`, `off_t`,
    `ptrdiff_t` and `intmax_t` are all 64-bit two's complement and `int` is 32-bit. */
module LongInt {

  const LONG_MIN: int := -0x8000_0000_0000_0000
  const LONG_MAX: int := 0x7FFF_FFFF_FFFF_FFFF
  const INT_MIN: int := -0x8000_0000
  const INT_MAX: int := 0x7FFF_FFFF

  predicate InLong(v: int) { LONG_MIN <= v <= LONG_MAX }

  predicate InInt(v: int) { INT_MIN <= v <= INT_MAX }

  /** The low 64 bits of v read as a signed value: what gnulib's
      INT_MULTIPLY_WRAPV and INT_ADD_WRAPV store when they report overflow. */
  function Wrap64(v: int): (r: int)
    ensures InLong(r)
    ensures InLong(v) ==> r == v
    ensures (v - r) % 0x1_0000_0000_0000_0000 == 0
  {
    (v - LONG_MIN) % 0x1_0000_0000_0000_0000 + LONG_MIN
  }

  /** Conversion of a `long` to `int`, which GCC defines as reduction modulo 2^32. */
  function Wrap32(v: int): (r: int)
    ensures InInt(r)
    ensures InInt(v) ==> r == v
    ensures (v - r) % 0x1_0000_0000 == 0
  {
    (v - INT_MIN) % 0x1_0000_0000 + INT_MIN
  }

  function Pow(b: int, k: nat): int
  {
    if k == 0 then 1 else b * Pow(b, k - 1)
  }

  lemma {:induction false} PowMonotone(b: int, k: nat, m: nat)
    requires b >= 1 && k <= m
    ensures 1 <= Pow(b, k) <= Pow(b, m)
    decreases m
  {
    if k < m {
      PowMonotone(b, k, m - 1);
      assert Pow(b, m) == b * Pow(b, m - 1);
      MulGrows(b, Pow(b, m - 1));
    } else if k > 0 {
      PowMonotone(b, k - 1, k - 1);
      MulGrows(b, Pow(b, k - 1));
    }
  }

  lemma MulGrows(b: int, p: int)
    requires b >= 1 && p >= 1
    ensures b * p >= p
  {
  }

  /** C's `/` (ISO/IEC 9899:2011 section 6.5.5): the quotient truncated toward zero. */
  function CQuot(a: int, b: int): int
    requires b != 0
  {
    var q := Abs(a) / Abs(b);
    if (a < 0) == (b < 0) then q else -q
  }

  /** C's `%`: the remainder that goes with CQuot, so it takes the sign of the dividend. */
  function CRem(a: int, b: int): (r: int)
    requires b != 0
    ensures a == b * CQuot(a, b) + r
    ensures -Abs(b) < r < Abs(b)
    ensures a >= 0 ==> r >= 0
    ensures a < 0 ==> r <= 0
  {
    var m := Abs(a) % Abs(b);
    DivMod(Abs(a), Abs(b));
    SignedProduct(a, b, Abs(a) / Abs(b));
    if a >= 0 then m else -m
  }

  lemma DivMod(a: nat, b: int)
    requires b > 0
    ensures a == b * (a / b) + a % b && 0 <= a % b < b
  {
  }

  lemma SignedProduct(a: int, b: int, q: int)
    requires b != 0
    ensures b * (if (a < 0) == (b < 0) then q else -q) == (if a < 0 then -(Abs(b) * q) else Abs(b) * q)
  {
  }

  function Abs(v: int): int { if v < 0 then -v else v }

  function Max(a: int, b: int): int { if a > b then a else b }

  function Min(a: int, b: int): int { if a < b then a else b }
}
