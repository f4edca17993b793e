/** Machine words as the 386 sees them. */
module Machine {
  type byte = b: int | 0 <= b < 0x100

  const TWO_32: int := 0x1_0000_0000
  const INT_MAX: int := 0x7FFF_FFFF
  const INT_MIN: int := -0x8000_0000

  type int32 = n: int | INT_MIN <= n <= INT_MAX
  type uint32 = n: int | 0 <= n < TWO_32

  /** The bit pattern of `n`, read as an unsigned word. */
  function ToUnsigned(n: int): (u: uint32) {
    n % TWO_32
  }

  /** The low 32 bits of `n`, read as a two's-complement word. */
  function ToSigned(n: int): (s: int32)
    ensures s % TWO_32 == n % TWO_32
  {
    var u := n % TWO_32;
    if u <= INT_MAX then u else u - TWO_32
  }

  lemma WrapOnce(n: int)
    requires INT_MIN - TWO_32 <= n <= INT_MAX
    ensures ToSigned(n) == if n < INT_MIN then n + TWO_32 else n
  {
  }

  /** The sum of two wrapped words wraps like the sum itself. */
  lemma WrapSum(a: int, b: int)
    ensures ToSigned(ToSigned(a) + ToSigned(b)) == ToSigned(a + b)
  {
    var i, j := ToSigned(a) / TWO_32 - a / TWO_32, ToSigned(b) / TWO_32 - b / TWO_32;
    assert ToSigned(a) + ToSigned(b) == a + b + (i + j) * TWO_32;
    assert (a + b + (i + j) * TWO_32) % TWO_32 == (a + b) % TWO_32;
  }

  /** The division of C, which rounds toward zero. */
  function CDiv(a: int, b: int): (q: int)
    requires b > 0
    ensures a >= 0 ==> q == a / b
  {
    if a >= 0 then a / b else -((-a) / b)
  }

  function CMod(a: int, b: int): (r: int)
    requires b > 0
    ensures a >= 0 ==> r == a % b
    ensures a < 0 ==> -b < r <= 0
  {
    a - b * CDiv(a, b)
  }
}
