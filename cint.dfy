/** Integer division as C performs it on `int`: the quotient is truncated
    toward zero, so the remainder takes the sign of the dividend. Dafny's own
    `/` and `%` are Euclidean and differ from C for a negative dividend. */
module CInt {

  /** `a / b` in C, for a positive divisor. */
  function Div(a: int, b: int): (q: int)
    requires b > 0
    ensures a >= 0 ==> 0 <= b * q <= a < b * q + b
    ensures a <= 0 ==> b * q - b < a <= b * q <= 0
  {
    if a >= 0 then a / b else -((-a) / b)
  }

  /** `a % b` in C, for a positive divisor. */
  function Rem(a: int, b: int): (r: int)
    requires b > 0
    ensures a == b * Div(a, b) + r
    ensures a >= 0 ==> 0 <= r < b
    ensures a <= 0 ==> -b < r <= 0
  {
    a - b * Div(a, b)
  }
}
