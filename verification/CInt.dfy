/** The C integer operations the modelled code relies on. */
module CInt {

  const INT_MAX := 0x7FFF_FFFF
  const LONG_MAX := 0x7FFF_FFFF_FFFF_FFFF
  const ULONG_MAX := 0xFFFF_FFFF_FFFF_FFFF

  /** C's `/` for a positive divisor: the quotient is truncated toward zero. */
  function Quot(a: int, b: int): int
    requires b > 0
  {
    if a >= 0 then a / b else -((-a) / b)
  }

  /** C's `%` for a positive divisor: the remainder has the sign of the dividend. */
  function Rem(a: int, b: int): int
    requires b > 0
  {
    if a >= 0 then a % b else -((-a) % b)
  }

  /** The conversion of a wider integer to a 32-bit `int`: the value modulo 2^32. */
  function ToInt32(n: int): (r: int)
    ensures -0x8000_0000 <= r <= 0x7FFF_FFFF && (n - r) % 0x1_0000_0000 == 0
  {
    var m := n % 0x1_0000_0000;
    if m <= INT_MAX then m else m - 0x1_0000_0000
  }

  predicate IsInt32(n: int) {
    -INT_MAX - 1 <= n <= INT_MAX
  }

  lemma ToInt32IsMinusOne(n: int)
    ensures ToInt32(n) == -1 <==> n % 0x1_0000_0000 == INT_MAX + INT_MAX + 1
  {
  }

  /** A quotient and a remainder that fit are the quotient and the remainder. */
  lemma DivisionIsUnique(n: int, k: int, q: int, r: int)
    requires k > 0 && n == k * q + r && 0 <= r < k
    ensures n / k == q && n % k == r
  {
    var d := n / k - q;
    assert k * d == r - n % k;
    MultipleIsFar(k, d);
  }

  lemma MultipleIsFar(k: int, d: int)
    requires k > 0
    ensures d >= 1 ==> k * d >= k
    ensures d <= -1 ==> k * d <= -k
  {
  }
}
