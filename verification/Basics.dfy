/** Types and arithmetic shared by the models. */
module Basics {
  datatype Option<+T> = None | Some(value: T)

  type Int32 = x: int | -0x8000_0000 <= x <= 0x7FFF_FFFF

  const MAX_INT32: int := 0x7FFF_FFFF

  /** Go's conversion of a float to an integer: truncation toward zero. */
  function Trunc(x: real): int {
    if x >= 0.0 then x.Floor else -((-x).Floor)
  }

  /** The whole number next to x on the side of zero. */
  lemma TruncIsTowardZero(x: real)
    ensures x >= 0.0 ==> 0 <= Trunc(x) && Trunc(x) as real <= x < Trunc(x) as real + 1.0
    ensures x <= 0.0 ==> Trunc(x) <= 0 && Trunc(x) as real - 1.0 < x <= Trunc(x) as real
  {}

  /** n times q: a q share of n things, or the total of n additions of q. */
  function Share(q: real, n: nat): (share: real)
    ensures 0.0 < q && n > 0 ==> 0.0 < share
    ensures q <= 0.0 ==> share <= 0.0
    ensures q < 1.0 && n > 0 ==> share < n as real
  {
    q * n as real
  }

  lemma ShareMonotone(q: real, q': real, n: nat)
    requires q <= q'
    ensures Share(q, n) <= Share(q', n)
  {}

  lemma ShareComplement(q: real, n: nat)
    ensures Share(1.0 - q, n) == n as real - Share(q, n)
  {}

  lemma ShareSucc(q: real, n: nat)
    ensures Share(q, n + 1) == Share(q, n) + q
  {}

  lemma ShareWithin(q: real, n: nat)
    requires 0.0 <= q <= 1.0
    ensures 0.0 <= Share(q, n) <= n as real
  {}
}
